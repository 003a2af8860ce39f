/** The fixed-width unsigned integers of the format, as bounded integers.
    Every wrap-around of the source (`wrapping_add`, `wrapping_mul`,
    `wrapping_sub`) is written out as a reduction modulo the width. */
module Words {

  /** An unsigned byte (`u8`). */
  type u8 = x: int | 0 <= x < 0x100
  /** An unsigned 64-bit word (`u64`, and `usize` on a 64-bit host). */
  type u64 = x: int | 0 <= x < 0x1_0000_0000_0000_0000

  /** `u8::wrapping_add`. */
  function WrappingAdd8(a: u8, b: u8): u8 {
    (a + b) % 0x100
  }

  /** `u8::wrapping_sub`: Dafny's `%` is Euclidean, so the result is the
      non-negative residue, as the source's wrap-around gives. */
  function WrappingSub8(a: u8, b: u8): u8 {
    (a - b) % 0x100
  }

  /** `u64::wrapping_add`. */
  function WrappingAdd64(a: u64, b: u64): u64 {
    (a + b) % 0x1_0000_0000_0000_0000
  }

  /** `u64::wrapping_mul`, for a multiplication by a constant of the format. */
  function WrappingMul64(a: u64, b: u64): u64 {
    (a * b) % 0x1_0000_0000_0000_0000
  }

  /** A non-zero multiple of a positive `m` is at least `m` away from 0. */
  lemma MulAwayFromZero(m: int, k: int)
    requires m > 0
    ensures k >= 1 ==> m * k >= m
    ensures k <= -1 ==> m * k <= -m
  {
    if k >= 1 {
      assert m * k == m + m * (k - 1);
      assert m * (k - 1) >= 0;
    } else if k <= -1 {
      assert m * k == -m + m * (k + 1);
      assert m * (k + 1) <= 0;
    }
  }

  /** The quotient and remainder are the `q` and `r` of any division
      `z == m * q + r` with `r` in range. */
  lemma ModUnique(z: int, m: int, q: int, r: int)
    requires m > 0 && 0 <= r < m && z == m * q + r
    ensures z / m == q && z % m == r
  {
    var q' := z / m;
    var r' := z % m;
    assert z == m * q' + r';
    assert m * (q - q') == r' - r by {
      assert m * q + r == m * q' + r';
      assert m * (q - q') == m * q - m * q';
    }
    MulAwayFromZero(m, q - q');
  }

  /** Reducing the summands first does not change the reduced sum. */
  lemma ModAdd(x: nat, y: nat, m: nat)
    requires m > 0
    ensures (x % m + y % m) % m == (x + y) % m
  {
    var s := x % m + y % m;
    assert x + y == m * (x / m + y / m) + s;
    if s < m {
      ModUnique(x + y, m, x / m + y / m, s);
      ModUnique(s, m, 0, s);
    } else {
      ModUnique(x + y, m, x / m + y / m + 1, s - m);
      ModUnique(s, m, 1, s - m);
    }
  }

  /** A product of non-negative numbers is non-negative. */
  lemma MulNonNegative(x: int, y: int)
    requires x >= 0 && y >= 0
    ensures x * y >= 0
  {
  }

  /** Dividing by `b` and then by `c` is dividing by `b * c` (a right shift
      by two amounts is a shift by their sum). */
  lemma DivDiv(a: nat, b: nat, c: nat)
    requires b > 0 && c > 0
    ensures a / b / c == a / (b * c)
  {
    var q, r := a / b, a % b;
    var q2, r2 := q / c, q % c;
    assert a == b * q + r;
    assert q == c * q2 + r2;
    assert a == (b * c) * q2 + (b * r2 + r) by {
      assert b * q == b * (c * q2) + b * r2;
      assert b * (c * q2) == (b * c) * q2;
    }
    MulNonNegative(b, c - 1 - r2);
    MulNonNegative(b, r2);
    assert b * (c - 1 - r2) == b * c - b - b * r2;
    ModUnique(a, b * c, q2, b * r2 + r);
  }

  /** Concatenation is associative (stated once, so that proofs about
      appended files need not rediscover it). */
  lemma AppendAssoc<T>(a: seq<T>, b: seq<T>, c: seq<T>)
    ensures a + b + c == a + (b + c)
  {
  }

  /** A prefix is a shorter prefix followed by the slice between the two. */
  lemma PrefixSplit<T>(s: seq<T>, i: nat, j: nat)
    requires i <= j <= |s|
    ensures s[..j] == s[..i] + s[i..j]
  {
  }

  /** Updating a key twice keeps only the second value. */
  lemma UpdateTwice<K, V>(m: map<K, V>, k: K, v: V, w: V)
    ensures m[k := v][k := w] == m[k := w]
  {
  }

  /** A slice is two adjacent slices joined. */
  lemma SliceSplit<T>(s: seq<T>, i: nat, j: nat, k: nat)
    requires i <= j <= k <= |s|
    ensures s[i..k] == s[i..j] + s[j..k]
  {
  }

  /** Subtracting a byte undoes adding it. */
  lemma SubAdd8(p: u8, k: u8)
    ensures WrappingSub8(WrappingAdd8(p, k), k) == p
  {
  }

  /** Adding a byte undoes subtracting it. */
  lemma AddSub8(c: u8, k: u8)
    ensures WrappingAdd8(WrappingSub8(c, k), k) == c
  {
  }
}
