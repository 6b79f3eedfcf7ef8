/** The C types and conversions the sources rely on, for a little-endian LP64 target:
    `int` is 32 bits wide, `size_t` and `uint64_t` 64 bits. */
module CTypes {
  type byte = x: int | 0 <= x < 0x100
  type uint16 = x: int | 0 <= x < 0x1_0000
  type uint32 = x: int | 0 <= x < 0x1_0000_0000

  /** `size_t` and `uint64_t`. */
  type size = x: int | 0 <= x < 0x1_0000_0000_0000_0000

  /** A MAC address. */
  type Mac = s: seq<byte> | |s| == 6 witness [0, 0, 0, 0, 0, 0]

  const INT_MAX := 0x7fff_ffff
  const UINT32_RANGE := 0x1_0000_0000
  const UINT64_RANGE := 0x1_0000_0000_0000_0000

  const EXIT_SUCCESS := 0
  const EXIT_FAILURE := 1
  const ENOMEM := 12
  const EFAULT := 14
  const EINVAL := 22

  datatype Option<+T> = None | Some(value: T)

  /** Conversion to `int`: modulo 2^32 into the signed range. */
  function ToInt(x: int): (r: int)
    ensures -INT_MAX - 1 <= r <= INT_MAX
  {
    var m := x % 0x1_0000_0000;
    if m < 0x8000_0000 then m else m - 0x1_0000_0000
  }

  /** Conversion to `size_t`. */
  function ToSize(x: int): size {
    x % 0x1_0000_0000_0000_0000
  }

  /** `n++` on a `size_t` or `uint64_t`. */
  function Bump(n: nat): size {
    ToSize(n + 1)
  }

  /** A counter that wraps around counts modulo 2^64. */
  lemma BumpWraps(n: nat)
    ensures Bump(ToSize(n)) == ToSize(n + 1)
  {
    var q, m := n / 0x1_0000_0000_0000_0000, n % 0x1_0000_0000_0000_0000;
    if m + 1 == 0x1_0000_0000_0000_0000 {
      ModUnique(n + 1, q + 1, 0, 0x1_0000_0000_0000_0000);
    } else {
      ModUnique(n + 1, q, m + 1, 0x1_0000_0000_0000_0000);
    }
  }

  lemma SizeFits(n: nat)
    requires n < 0x1_0000_0000_0000_0000
    ensures ToSize(n) == n
  {
  }

  lemma {:induction false} MulOrdered(d: nat, a: int, b: int)
    requires a < b
    ensures d * a + d <= d * b
    decreases b - a
  {
    if a + 1 < b {
      MulOrdered(d, a, b - 1);
    }
    assert d * (b - 1) + d == d * b;
  }

  /** A remainder is determined by its equation. */
  lemma ModUnique(x: int, q: int, m: nat, d: nat)
    requires x == d * q + m && m < d
    ensures x % d == m
  {
    if x / d < q {
      MulOrdered(d, x / d, q);
    } else if q < x / d {
      MulOrdered(d, q, x / d);
    }
  }

  /** The quotient is the largest number of times `d` fits. */
  lemma DivFits(x: nat, q: nat, d: nat)
    requires 0 < d
    ensures d * q <= x <==> q <= x / d
  {
    if x / d < q {
      MulOrdered(d, x / d, q);
    } else if q < x / d {
      MulOrdered(d, q, x / d);
    }
  }

  function Min(a: nat, b: nat): nat {
    if a < b then a else b
  }

  function Max(a: nat, b: nat): nat {
    if a < b then b else a
  }

  function Zeros(n: nat): (s: seq<byte>)
    ensures |s| == n
    ensures forall i :: 0 <= i < n ==> s[i] == 0
  {
    seq(n, _ => 0)
  }
}
