/** The raw byte image of a 64-bit word, as the stream macros move it.
    The byte order is fixed to little-endian (the order of the usual hosts
    the on-disk files come from), and `usize` is taken to be 64 bits wide. */
module Wire {
  import opened Words

  /** 256 to the power `n`. */
  function Pow256(n: nat): (p: nat)
    ensures p > 0
  {
    if n == 0 then 1 else 0x100 * Pow256(n - 1)
  }

  /** The `n` lowest base-256 digits of `v`, least significant first. */
  function Digits(v: nat, n: nat): (b: seq<u8>)
    ensures |b| == n
  {
    if n == 0 then [] else [v % 0x100] + Digits(v / 0x100, n - 1)
  }

  /** The number whose base-256 digits, least significant first, are `b`. */
  function Value(b: seq<u8>): (v: nat)
    ensures v < Pow256(|b|)
  {
    if b == [] then 0 else b[0] + 0x100 * Value(b[1..])
  }

  /** The 8-byte little-endian image of a word (`transmute` to `[u8; 8]`). */
  function LeBytes(v: u64): (b: seq<u8>)
    ensures |b| == 8
  {
    Digits(v, 8)
  }

  /** The word read from an 8-byte little-endian image (`transmute` from `[u8; 8]`). */
  function FromLe(b: seq<u8>): u64
    requires |b| == 8
  {
    assert Pow256(8) == 0x1_0000_0000_0000_0000;
    Value(b)
  }

  /** Digit `j` is the number shifted right by `8 * j` bits and masked to
      its low byte. */
  lemma {:induction false} DigitsAt(v: nat, n: nat, j: nat)
    requires j < n
    ensures Digits(v, n)[j] == v / Pow256(j) % 0x100
  {
    if j > 0 {
      assert Digits(v, n)[j] == Digits(v / 0x100, n - 1)[j - 1];
      DigitsAt(v / 0x100, n - 1, j - 1);
      DivDiv(v, 0x100, Pow256(j - 1));
    }
  }

  /** Digits of a number below 256^n read back as the number. */
  lemma {:induction false} ValueDigits(v: nat, n: nat)
    requires v < Pow256(n)
    ensures Value(Digits(v, n)) == v
  {
    if n > 0 {
      ValueDigits(v / 0x100, n - 1);
      assert Digits(v, n)[1..] == Digits(v / 0x100, n - 1);
    }
  }

  /** A digit sequence is the digits of its own value. */
  lemma {:induction false} DigitsValue(b: seq<u8>)
    ensures Digits(Value(b), |b|) == b
  {
    if b != [] {
      DigitsValue(b[1..]);
      assert Value(b) % 0x100 == b[0];
      assert Value(b) / 0x100 == Value(b[1..]);
      assert b == [b[0]] + b[1..];
    }
  }

  /** Reading back the image of a word gives the word. */
  lemma FromLeLeBytes(v: u64)
    ensures FromLe(LeBytes(v)) == v
  {
    assert Pow256(8) == 0x1_0000_0000_0000_0000;
    ValueDigits(v, 8);
  }

  /** Every 8-byte sequence is the image of exactly the word read from it. */
  lemma LeBytesFromLe(b: seq<u8>)
    requires |b| == 8
    ensures LeBytes(FromLe(b)) == b
  {
    DigitsValue(b);
  }

  /** Distinct words have distinct images. */
  lemma LeBytesInjective(v: u64, w: u64)
    ensures LeBytes(v) == LeBytes(w) <==> v == w
  {
    if LeBytes(v) == LeBytes(w) {
      FromLeLeBytes(v);
      FromLeLeBytes(w);
    }
  }
}
