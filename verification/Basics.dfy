/** Small vocabulary shared by the other modules: options, machine integers and
    the two list operations the stream code is specified with. */
module Basics {
  datatype Option<+T> = None | Some(value: T)

  const TWO_31: int := 0x8000_0000
  const TWO_32: int := 0x1_0000_0000
  const TWO_64: int := 0x1_0000_0000_0000_0000

  type uint8 = x: int | 0 <= x < 256
  type uint32 = x: int | 0 <= x < TWO_32
  type uint64 = x: int | 0 <= x < TWO_64
  type int32 = x: int | -TWO_31 <= x < TWO_31

  /** The width of Go's `int`: the router build is 32-bit, a development build 64-bit. */
  datatype Width = W32 | W64

  function MaxInt(w: Width): nat {
    if w == W32 then 0x7FFF_FFFF else 0x7FFF_FFFF_FFFF_FFFF
  }

  /** Conversion of a non-negative wide value to `int`, keeping the low bits in two's complement. */
  function ToInt(w: Width, x: uint32): int {
    if w == W32 && x >= TWO_31 then x - TWO_32 else x
  }

  function Min(a: int, b: int): int {
    if a < b then a else b
  }

  function Max(a: int, b: int): int {
    if a < b then b else a
  }

  /** The last `n` elements, or all of them when there are fewer. */
  function LastN<T>(s: seq<T>, n: nat): seq<T> {
    if |s| <= n then s else s[|s| - n..]
  }

  /** Dropping early entries and then appending is the same as appending and then dropping. */
  lemma LastNAppend<T>(s: seq<T>, x: T, n: nat)
    requires n > 0
    ensures LastN(LastN(s, n) + [x], n) == LastN(s + [x], n)
  {
    if |s| > n {
      assert LastN(s, n) + [x] == (s + [x])[|s| - n..];
    }
  }

  function Reverse<T>(s: seq<T>): (r: seq<T>)
    ensures |r| == |s|
    ensures forall i :: 0 <= i < |s| ==> r[i] == s[|s| - 1 - i]
  {
    seq(|s|, i requires 0 <= i < |s| => s[|s| - 1 - i])
  }

  lemma ModUnique(a: int, n: nat, q: int, r: nat)
    requires n > 0 && r < n && a == q * n + r
    ensures a % n == r && a / n == q
  {
    assert (a / n - q) * n == r - a % n;
    MultipleNearZero(a / n - q, n);
  }

  lemma MultipleNearZero(d: int, n: int)
    requires n > 0 && -n < d * n < n
    ensures d == 0
  {
  }

  lemma ModWrap(a: nat, n: nat)
    requires n > 0
    ensures a < n ==> a % n == a
    ensures n <= a < 2 * n ==> a % n == a - n
  {
    if a < n {
      ModUnique(a, n, 0, a);
    } else if a < 2 * n {
      ModUnique(a, n, 1, a - n);
    }
  }

  lemma ModPeriod(a: int, n: nat)
    requires n > 0
    ensures a % n == (a - n) % n
  {
    ModUnique(a, n, (a - n) / n + 1, (a - n) % n);
  }
}
