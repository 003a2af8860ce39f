/** Password-derived keys: the three constants of the format and the
    multiply-add fold that turns a password into a 64-bit key. */
module Keys {
  import opened Words

  /** Seed of the derivation fold. */
  const INITIAL: u64 := 0x3D9CA05D5422EDE9
  /** Multiplier spreading a byte over the whole word (derivation and feedback). */
  const SCRAMBLE: u64 := 0xECD96C09EEFC5F6D
  /** Per-byte multiplier of the derivation fold and of the cipher state. */
  const MULT: u64 := 709

  /** A key is a single 64-bit word. Datatype equality is the derived
      `PartialEq`: two keys are equal exactly when their words are. */
  datatype Key = Key(value: u64)

  /** One derivation step: absorb byte `c` into the accumulator. */
  function Absorb(acc: u64, c: u8): u64 {
    WrappingAdd64(WrappingMul64(acc, MULT), WrappingMul64(c, SCRAMBLE))
  }

  /** Left fold of `Absorb` over `bytes`, starting from `acc`. */
  function Fold(acc: u64, bytes: seq<u8>): u64 {
    if bytes == [] then acc
    else Absorb(Fold(acc, bytes[..|bytes| - 1]), bytes[|bytes| - 1])
  }

  /** The key word of a password, given as its bytes. */
  function Derive(password: seq<u8>): u64 {
    Fold(INITIAL, password)
  }

  /** `Key::from`: the accumulator loop over the password bytes. */
  method From(password: seq<u8>) returns (k: Key)
    ensures k.value == Derive(password)
  {
    var value := INITIAL;
    for i := 0 to |password|
      invariant value == Fold(INITIAL, password[..i])
    {
      assert password[..i + 1][..i] == password[..i];
      value := WrappingAdd64(WrappingMul64(value, MULT), WrappingMul64(password[i], SCRAMBLE));
    }
    assert password[..|password|] == password;
    k := Key(value);
  }

  /** The empty password derives the seed itself. */
  lemma DeriveEmpty()
    ensures Derive([]) == 0x3D9CA05D5422EDE9
  {
  }

  /** A step is one multiply-add modulo 2^64: wrapping each product and
      then the sum is the same as wrapping once. */
  lemma AbsorbMultiplyAdd(acc: u64, c: u8)
    ensures Absorb(acc, c) == (acc * MULT + c * SCRAMBLE) % 0x1_0000_0000_0000_0000
  {
    ModAdd(acc * MULT, c * SCRAMBLE, 0x1_0000_0000_0000_0000);
  }

  /** Appending one byte performs exactly one multiply-add step. */
  lemma DeriveSnoc(p: seq<u8>, c: u8)
    ensures Derive(p + [c]) == (Derive(p) * 709 + c * 0xECD96C09EEFC5F6D) % 0x1_0000_0000_0000_0000
  {
    assert (p + [c])[..|p|] == p;
    AbsorbMultiplyAdd(Derive(p), c);
  }

  /** The fold over a concatenation is the fold over the tail, resumed from
      the accumulator reached after the head. */
  lemma {:induction false} FoldAppend(acc: u64, p: seq<u8>, q: seq<u8>)
    ensures Fold(acc, p + q) == Fold(Fold(acc, p), q)
  {
    if q == [] {
      assert p + q == p;
    } else {
      var q' := q[..|q| - 1];
      assert (p + q)[..|p + q| - 1] == p + q';
      FoldAppend(acc, p, q');
    }
  }

  /** Passwords with a common prefix share the accumulator after it. */
  lemma DerivePrefix(p: seq<u8>, q: seq<u8>)
    ensures Derive(p + q) == Fold(Derive(p), q)
  {
    FoldAppend(INITIAL, p, q);
  }

  /** Two keys are equal exactly when their words are. */
  lemma KeyEquality(a: Key, b: Key)
    ensures a == b <==> a.value == b.value
  {
  }

  /** `p` is the ASCII encoding of `text` (`str::bytes` on ASCII text). */
  ghost predicate Spells(p: seq<u8>, text: string) {
    |p| == |text| && forall i :: 0 <= i < |p| ==> p[i] == text[i] as int
  }

  /** Deriving over one more byte of `p`, byte `c`, moves the accumulator
      from `v` to `w` when one multiply-add from `v` over `c` gives `w`. */
  lemma DeriveStep(p: seq<u8>, i: nat, c: u8, v: u64, w: u64)
    requires i < |p| && p[i] == c && Derive(p[..i]) == v
    requires w == (v * MULT + c * SCRAMBLE) % 0x1_0000_0000_0000_0000
    ensures Derive(p[..i + 1]) == w
  {
    assert p[..i + 1][..i] == p[..i];
    AbsorbMultiplyAdd(v, c);
  }

  /** The fold over the ASCII bytes "12345", the common prefix of the sample
      passwords, computed byte by byte. */
  lemma DeriveSamplePrefix(p: seq<u8>)
    requires |p| >= 5 && p[0] == 0x31 && p[1] == 0x32 && p[2] == 0x33 && p[3] == 0x34 && p[4] == 0x35
    ensures Derive(p[..5]) == 0x63a41e8c78a82bd0
  {
    assert p[..0] == [];
    DeriveStep(p, 0, 0x31, 0x3D9CA05D5422EDE9, 0xf865d060c30b2a2a);
    DeriveStep(p, 1, 0x32, 0xf865d060c30b2a2a, 0x347135ecdb36699c);
    DeriveStep(p, 2, 0x33, 0x347135ecdb36699c, 0x6cdadef5b9f97fc3);
    DeriveStep(p, 3, 0x34, 0x6cdadef5b9f97fc3, 0x965570909b423933);
    DeriveStep(p, 4, 0x35, 0x965570909b423933, 0x63a41e8c78a82bd0);
  }

  /** The key of "123456", byte by byte. */
  lemma DeriveSample123456(p: seq<u8>)
    requires Spells(p, "123456")
    ensures Derive(p) == 0xeb65652292fd780e
  {
    assert p[0] == 0x31 && p[1] == 0x32 && p[2] == 0x33 && p[3] == 0x34 && p[4] == 0x35 && p[5] == 0x36;
    DeriveSamplePrefix(p);
    DeriveStep(p, 5, 0x36, 0x63a41e8c78a82bd0, 0xeb65652292fd780e);
    assert p[..6] == p;
  }

  /** The key of "123457", byte by byte. */
  lemma DeriveSample123457(p: seq<u8>)
    requires Spells(p, "123457")
    ensures Derive(p) == 0xd83ed12c81f9d77b
  {
    assert p[0] == 0x31 && p[1] == 0x32 && p[2] == 0x33 && p[3] == 0x34 && p[4] == 0x35 && p[5] == 0x37;
    DeriveSamplePrefix(p);
    DeriveStep(p, 5, 0x37, 0x63a41e8c78a82bd0, 0xd83ed12c81f9d77b);
    assert p[..6] == p;
  }

  /** The key of "1234567", one byte after the key of "123456". */
  lemma DeriveSample1234567(p: seq<u8>)
    requires Spells(p, "1234567")
    ensures Derive(p) == 0xd2874ee37035ff31
  {
    assert Spells(p[..6], "123456") by {
      assert "1234567"[..6] == "123456";
    }
    DeriveSample123456(p[..6]);
    assert p[..6][..6] == p[..6];
    DeriveStep(p, 6, 0x37, 0xeb65652292fd780e, 0xd2874ee37035ff31);
    assert p[..7] == p;
  }

  /** The three sample passwords derive three pairwise distinct keys. */
  lemma SampleKeysDistinct(six: seq<u8>, seven: seq<u8>, other: seq<u8>)
    requires Spells(six, "123456") && Spells(seven, "1234567") && Spells(other, "123457")
    ensures Key(Derive(six)) != Key(Derive(seven))
    ensures Key(Derive(six)) != Key(Derive(other))
    ensures Key(Derive(seven)) != Key(Derive(other))
  {
    DeriveSample123456(six);
    DeriveSample1234567(seven);
    DeriveSample123457(other);
  }
}
