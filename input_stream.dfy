/** The reading side of an encrypted file: `InputStream`. */
module InputStreams {
  import opened Words
  import opened Keys
  import opened Cipher
  import opened Wrappers
  import opened Fs

  /** One iteration of the decryption loop on the output buffer: decrypting
      byte `i` in place extends the decrypted prefix by one byte, leaves the
      rest of the ciphertext alone, and feeds back ciphertext byte `i`. */
  lemma DecryptInPlace(state: u64, cipher: seq<u8>, buf: seq<u8>, i: nat, b: u8)
    requires i < |cipher| <= |buf|
    requires buf[..i] == Decrypt(state, cipher[..i]) && buf[i..|cipher|] == cipher[i..]
    requires b == WrappingSub8(buf[i], KeyByte(Mix(Fold(state, cipher[..i])), i))
    ensures buf[i := b][..i + 1] == Decrypt(state, cipher[..i + 1])
    ensures buf[i := b][i + 1..|cipher|] == cipher[i + 1..]
    ensures Fold(state, cipher[..i + 1]) == Feedback(Mix(Fold(state, cipher[..i])), buf[i])
  {
    DecryptSnoc(state, cipher, i);
    assert buf[i] == cipher[i] by {
      assert buf[i..|cipher|][0] == cipher[i..][0];
    }
    assert buf[i := b][..i + 1] == buf[..i] + [b];
    assert cipher[..i + 1] == cipher[..i] + [cipher[i]];
    FoldSnoc(state, cipher[..i], cipher[i]);
    assert buf[i := b][i + 1..|cipher|] == buf[i + 1..|cipher|] == buf[i..|cipher|][1..];
    assert cipher[i + 1..] == cipher[i..][1..];
  }

  /** An open file, its read position, and the cipher state that decrypts
      what is read from it. The file's bytes are taken when it is opened. */
  class InputStream {
    /** The file's bytes. */
    const data: seq<u8>
    /** How many bytes have been read. */
    var pos: nat
    var state: u64
    /** The key the stream was opened with. */
    ghost const seed: u64

    /** The position is inside the file, and the state is the key's word
        folded over exactly the ciphertext read so far. */
    ghost predicate Valid()
      reads this
    {
      pos <= |data| && state == Fold(seed, data[..pos])
    }

    /** The stream at the start of `data`, seeded with `key`. */
    constructor Init(data: seq<u8>, key: Key)
      ensures this.data == data && pos == 0 && state == key.value && seed == key.value
      ensures Valid()
    {
      this.data := data;
      pos := 0;
      state := key.value;
      seed := key.value;
      assert data[..0] == [];
    }

    /** `InputStream::new`: `None` when the file does not open; otherwise a
        stream at the start of the file whose state is the key's word. */
    static method New(disk: Disk, path: string, key: Key) returns (r: Option<InputStream>)
      ensures r.None? <==> path !in disk.files
      ensures r.Some? ==> fresh(r.value) && r.value.Valid()
      ensures r.Some? ==> r.value.data == disk.files[path] && r.value.pos == 0
      ensures r.Some? ==> r.value.state == key.value && r.value.seed == key.value
    {
      var file := disk.Open(path);
      if file.None? {
        return None;
      }
      var s := new InputStream.Init(file.value, key);
      r := Some(s);
    }

    /** The loop of `read_raw`: decrypts the first `count` bytes of
        `output` in place with call-local indices, feeding back each
        ciphertext byte before it is overwritten. */
    method DecryptBuffer(output: array<u8>, count: nat)
      requires count <= output.Length
      modifies this, output
      ensures output[..count] == Decrypt(old(state), old(output[..count]))
      ensures output[count..] == old(output[count..])
      ensures state == Fold(old(state), old(output[..count]))
      ensures pos == old(pos)
    {
      ghost var c := output[..count];
      ghost var s0 := state;
      for i := 0 to count
        invariant pos == old(pos)
        invariant output[..i] == Decrypt(s0, c[..i])
        invariant output[i..count] == c[i..]
        invariant output[count..] == old(output[count..])
        invariant state == Fold(s0, c[..i])
      {
        ghost var before := output[..];
        state := WrappingMul64(state, MULT);
        var x := KeyByte(state, i);
        state := WrappingAdd64(state, WrappingMul64(output[i], SCRAMBLE));
        output[i] := WrappingSub8(output[i], x);
        assert output[..] == before[i := output[i]];
        DecryptInPlace(s0, c, before, i, output[i]);
        assert before[..i] == output[..i];
        assert output[count..] == before[count..];
      }
      assert c[..count] == c;
    }

    /** `read_raw`: reads up to `output.Length` bytes into `output`, then
        decrypts them in place with call-local indices, feeding back each
        ciphertext byte before it is overwritten. The rest of `output` is
        untouched; the result is the number of bytes read. */
    method ReadRaw(output: array<u8>) returns (n: nat)
      requires Valid()
      modifies this, output
      ensures Valid()
      ensures n == Min(output.Length, |data| - old(pos)) && pos == old(pos) + n
      ensures output[..n] == Decrypt(old(state), data[old(pos)..pos])
      ensures output[n..] == old(output[n..])
      ensures state == Fold(old(state), data[old(pos)..pos])
    {
      n := Min(output.Length, |data| - pos);
      forall k | 0 <= k < n {
        output[k] := data[pos + k];
      }
      assert output[n..] == old(output[n..]);
      ghost var c := data[pos..pos + n];
      assert output[..n] == c;
      ghost var s0 := state;
      DecryptBuffer(output, n);
      assert output[..n] == Decrypt(s0, c) && state == Fold(s0, c);
      ghost var p0 := pos;
      pos := pos + n;
      assert data[p0..pos] == c;
      PrefixSplit(data, p0, pos);
      FoldAppend(seed, data[..p0], c);
    }
  }

  /** `read_stream!`: one raw read into a zeroed buffer of `size` bytes (the
      size of the value read); the buffer and the count read. */
  method ReadStream(ins: InputStream, size: nat) returns (buffer: seq<u8>, n: nat)
    requires ins.Valid()
    modifies ins
    ensures ins.Valid()
    ensures |buffer| == size
    ensures n == Min(size, |ins.data| - old(ins.pos)) && ins.pos == old(ins.pos) + n
    ensures buffer[..n] == Decrypt(old(ins.state), ins.data[old(ins.pos)..ins.pos])
    ensures forall k :: n <= k < size ==> buffer[k] == 0
    ensures ins.state == Fold(old(ins.state), ins.data[old(ins.pos)..ins.pos])
  {
    var a := new u8[size](_ => 0);
    n := ins.ReadRaw(a);
    buffer := a[..];
    assert forall k :: n <= k < size ==> buffer[k] == a[n..][k - n];
  }
}
