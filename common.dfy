/**
 * Machine-level vocabulary shared by the page-layout and page-encryption
 * models: fixed-width unsigned integers, bytes, powers of two, the bitwise
 * AND of two non-negative integers, and the 4-byte little-endian layout of
 * a 32-bit value in memory.
 */
module Common {

  type byte = x: int | 0 <= x < 0x100
  type uint16 = x: int | 0 <= x < 0x1_0000
  type uint32 = x: int | 0 <= x < 0x1_0000_0000
  type uint64 = x: int | 0 <= x < 0x1_0000_0000_0000_0000

  datatype Option<+T> = None | Some(value: T)

  /** 2 to the power k, i.e. C's `1 << k` for small k. */
  function Pow2(k: nat): (r: nat)
    ensures r >= 1
  {
    if k == 0 then 1 else 2 * Pow2(k - 1)
  }

  lemma {:induction false} Pow2Monotone(j: nat, k: nat)
    requires j <= k
    ensures Pow2(j) <= Pow2(k)
  {
    if j < k {
      Pow2Monotone(j, k - 1);
    }
  }

  /** C's `a & b` on non-negative integers, bit by bit from the low end. */
  function BitAnd(a: nat, b: nat): nat
  {
    if a == 0 || b == 0 then 0
    else 2 * BitAnd(a / 2, b / 2) + (if a % 2 == 1 && b % 2 == 1 then 1 else 0)
  }

  ghost predicate IsPowerOfTwo(n: nat) {
    exists k: nat :: Pow2(k) == n
  }

  lemma {:induction false} BitAndSelf(m: nat)
    ensures BitAnd(m, m) == m
  {
    if m != 0 {
      BitAndSelf(m / 2);
    }
  }

  /** The classic test `n & (n - 1) == 0` holds exactly for the powers of two. */
  lemma {:induction false} PowerOfTwoTest(n: nat)
    requires n >= 1
    ensures BitAnd(n, n - 1) == 0 <==> IsPowerOfTwo(n)
  {
    if n == 1 {
      assert Pow2(0) == 1;
    } else if n % 2 == 1 {
      BitAndSelf(n / 2);
      assert BitAnd(n, n - 1) == 2 * (n / 2) != 0;
    } else {
      var m := n / 2;
      assert BitAnd(n, n - 1) == 2 * BitAnd(m, m - 1);
      PowerOfTwoTest(m);
      if IsPowerOfTwo(m) {
        var k: nat :| Pow2(k) == m;
        assert Pow2(k + 1) == n;
      }
      if IsPowerOfTwo(n) {
        var k: nat :| Pow2(k) == n;
        assert k != 0;
        assert Pow2(k - 1) == m;
      }
    }
  }

  /** The four bytes of a 32-bit value as a little-endian host stores them. */
  function LE32(x: uint32): (r: seq<byte>)
    ensures |r| == 4
  {
    var q1 := x / 0x100;
    var q2 := q1 / 0x100;
    [x % 0x100, q1 % 0x100, q2 % 0x100, q2 / 0x100]
  }

  /** Reading four little-endian bytes back into a 32-bit value. */
  function FromLE32(b: seq<byte>): (x: uint32)
    requires |b| == 4
  {
    b[0] as int + 0x100 * b[1] as int + 0x1_0000 * b[2] as int + 0x100_0000 * b[3] as int
  }

  lemma LE32RoundTrip(x: uint32)
    ensures FromLE32(LE32(x)) == x
  {
    var q1 := x / 0x100;
    var q2 := q1 / 0x100;
    assert x == x % 0x100 + 0x100 * q1;
    assert q1 == q1 % 0x100 + 0x100 * q2;
    assert q2 == q2 % 0x100 + 0x100 * (q2 / 0x100);
  }

  lemma LE32Injective(x: uint32, y: uint32)
    ensures LE32(x) == LE32(y) <==> x == y
  {
    if LE32(x) == LE32(y) {
      LE32RoundTrip(x);
      LE32RoundTrip(y);
    }
  }
}
