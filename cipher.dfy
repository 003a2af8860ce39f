/** The self-synchronising stream cipher shared by both stream directions.

    One raw transfer ("call") processes a run of bytes with a call-local index
    `i` starting at 0. For each byte the state is first multiplied by `MULT`;
    byte `i mod 8` of that word is the keystream byte; it is added to the
    plaintext (encrypt) or subtracted from the ciphertext (decrypt) modulo 256;
    finally `cipher_byte * SCRAMBLE` is added to the state. Both directions
    feed back the CIPHERTEXT byte, so the state after a run is `Fold(state,
    cipher)`: the same multiply-add fold that derives keys, taken over the
    ciphertext, whatever the call boundaries and directions were. */
module Cipher {
  import opened Words
  import opened Keys
  import opened Wire

  /** First half of a step: the state is multiplied by `MULT` (mod 2^64). */
  function Mix(state: u64): u64 {
    WrappingMul64(state, MULT)
  }

  /** The keystream byte at call-local index `i`: byte `i mod 8` of the mixed
      state, counting from the least significant byte (the source's shift by
      `(i & 7) << 3` followed by `& 0xFF`). */
  function KeyByte(mixed: u64, i: nat): u8 {
    LeBytes(mixed)[i % 8]
  }

  /** The keystream byte is the mixed state shifted right by
      `8 * (i mod 8)` bits and masked with `0xFF`. */
  lemma KeyByteShift(mixed: u64, i: nat)
    ensures KeyByte(mixed, i) == mixed / Pow256(i % 8) % 0x100
  {
    DigitsAt(mixed, 8, i % 8);
  }

  /** Second half of a step: ciphertext feedback `mixed + c * SCRAMBLE`. */
  function Feedback(mixed: u64, c: u8): u64 {
    WrappingAdd64(mixed, WrappingMul64(c, SCRAMBLE))
  }

  /** The ciphertext of one encrypting call from `state` (left fold: the last
      byte is encrypted with the state reached after all earlier ciphertext). */
  function Encrypt(state: u64, plain: seq<u8>): (cipher: seq<u8>)
    ensures |cipher| == |plain|
  {
    if plain == [] then []
    else
      var prev := Encrypt(state, plain[..|plain| - 1]);
      prev + [WrappingAdd8(plain[|plain| - 1], KeyByte(Mix(Fold(state, prev)), |plain| - 1))]
  }

  /** The plaintext of one decrypting call from `state`. */
  function Decrypt(state: u64, cipher: seq<u8>): (plain: seq<u8>)
    ensures |plain| == |cipher|
  {
    if cipher == [] then []
    else
      var prev := cipher[..|cipher| - 1];
      Decrypt(state, prev) + [WrappingSub8(cipher[|cipher| - 1], KeyByte(Mix(Fold(state, prev)), |cipher| - 1))]
  }

  /** An empty call produces nothing and leaves the state where it was. */
  lemma EmptyRun(state: u64)
    ensures Encrypt(state, []) == [] && Decrypt(state, []) == [] && Fold(state, []) == state
  {
  }

  /** The derivation step is the cipher's mix followed by its feedback: the
      state a stream reaches over a ciphertext is the fold of `Absorb`. */
  lemma AbsorbIsMixFeedback(state: u64, c: u8)
    ensures Absorb(state, c) == Feedback(Mix(state), c)
  {
  }

  /** One more ciphertext byte is one more mix and feedback of the state. */
  lemma FoldSnoc(state: u64, cipher: seq<u8>, c: u8)
    ensures Fold(state, cipher + [c]) == Feedback(Mix(Fold(state, cipher)), c)
  {
    assert (cipher + [c])[..|cipher|] == cipher;
  }

  /** Encrypting one more plaintext byte appends one ciphertext byte, keyed
      by its call-local index and the state after the earlier ciphertext. */
  lemma EncryptSnoc(state: u64, plain: seq<u8>, i: nat)
    requires i < |plain|
    ensures Encrypt(state, plain[..i + 1])
         == Encrypt(state, plain[..i]) + [WrappingAdd8(plain[i], KeyByte(Mix(Fold(state, Encrypt(state, plain[..i]))), i))]
  {
    assert plain[..i + 1][..i] == plain[..i];
  }

  /** Decrypting one more ciphertext byte appends one plaintext byte. */
  lemma DecryptSnoc(state: u64, cipher: seq<u8>, i: nat)
    requires i < |cipher|
    ensures Decrypt(state, cipher[..i + 1])
         == Decrypt(state, cipher[..i]) + [WrappingSub8(cipher[i], KeyByte(Mix(Fold(state, cipher[..i])), i))]
  {
    assert cipher[..i + 1][..i] == cipher[..i];
  }

  /** Encryption is online: a prefix of the ciphertext only depends on the
      same prefix of the plaintext. */
  lemma {:induction false} EncryptPrefix(state: u64, plain: seq<u8>, k: nat)
    requires k <= |plain|
    ensures Encrypt(state, plain)[..k] == Encrypt(state, plain[..k])
  {
    if k < |plain| {
      var init := plain[..|plain| - 1];
      assert Encrypt(state, plain)[..|plain| - 1] == Encrypt(state, init);
      EncryptPrefix(state, init, k);
      assert init[..k] == plain[..k];
    } else {
      assert plain[..k] == plain;
    }
  }

  /** Decryption is online in the same way. */
  lemma {:induction false} DecryptPrefix(state: u64, cipher: seq<u8>, k: nat)
    requires k <= |cipher|
    ensures Decrypt(state, cipher)[..k] == Decrypt(state, cipher[..k])
  {
    if k < |cipher| {
      var init := cipher[..|cipher| - 1];
      assert Decrypt(state, cipher)[..|cipher| - 1] == Decrypt(state, init);
      DecryptPrefix(state, init, k);
      assert init[..k] == cipher[..k];
    } else {
      assert cipher[..k] == cipher;
    }
  }

  /** Ciphertext byte `i` is plaintext byte `i` plus the keystream byte that
      the call-local index `i` selects from the state mixed after the earlier
      ciphertext. */
  lemma EncryptAt(state: u64, plain: seq<u8>, i: nat)
    requires i < |plain|
    ensures Encrypt(state, plain)[i]
         == WrappingAdd8(plain[i], KeyByte(Mix(Fold(state, Encrypt(state, plain)[..i])), i))
  {
    var p := plain[..i + 1];
    EncryptPrefix(state, plain, i + 1);
    EncryptPrefix(state, plain, i);
    assert p[..i] == plain[..i];
    assert Encrypt(state, plain)[i] == Encrypt(state, p)[i];
  }

  /** Plaintext byte `i` is ciphertext byte `i` minus the same keystream byte. */
  lemma DecryptAt(state: u64, cipher: seq<u8>, i: nat)
    requires i < |cipher|
    ensures Decrypt(state, cipher)[i]
         == WrappingSub8(cipher[i], KeyByte(Mix(Fold(state, cipher[..i])), i))
  {
    var c := cipher[..i + 1];
    DecryptPrefix(state, cipher, i + 1);
    assert c[..i] == cipher[..i];
    assert Decrypt(state, cipher)[i] == Decrypt(state, c)[i];
  }

  /** Decrypting a call's ciphertext from the same starting state restores the
      plaintext. */
  lemma {:induction false} DecryptEncrypt(state: u64, plain: seq<u8>)
    ensures Decrypt(state, Encrypt(state, plain)) == plain
  {
    if plain != [] {
      var n := |plain|;
      var init := plain[..n - 1];
      var prev := Encrypt(state, init);
      var k := KeyByte(Mix(Fold(state, prev)), n - 1);
      var c := Encrypt(state, plain);
      assert c == prev + [WrappingAdd8(plain[n - 1], k)];
      assert c[..n - 1] == prev;
      DecryptEncrypt(state, init);
      SubAdd8(plain[n - 1], k);
      assert plain == init + [plain[n - 1]];
    }
  }

  /** Every ciphertext is the encryption of its decryption: the transform is a
      bijection on runs of a given length. */
  lemma {:induction false} EncryptDecrypt(state: u64, cipher: seq<u8>)
    ensures Encrypt(state, Decrypt(state, cipher)) == cipher
  {
    if cipher != [] {
      var n := |cipher|;
      var init := cipher[..n - 1];
      var k := KeyByte(Mix(Fold(state, init)), n - 1);
      var p := Decrypt(state, cipher);
      assert p == Decrypt(state, init) + [WrappingSub8(cipher[n - 1], k)];
      assert p[..n - 1] == Decrypt(state, init);
      EncryptDecrypt(state, init);
      AddSub8(cipher[n - 1], k);
      assert cipher == init + [cipher[n - 1]];
    }
  }

  /** Encryption is injective for a fixed starting state. */
  lemma EncryptInjective(state: u64, p: seq<u8>, q: seq<u8>)
    ensures Encrypt(state, p) == Encrypt(state, q) <==> p == q
  {
    if Encrypt(state, p) == Encrypt(state, q) {
      DecryptEncrypt(state, p);
      DecryptEncrypt(state, q);
    }
  }
}
