/** The writing side of an encrypted file: `OutputStream`. */
module OutputStreams {
  import opened Words
  import opened Keys
  import opened Cipher
  import opened Wrappers
  import opened Fs

  /** One iteration of the encryption loop on the buffer: encrypting byte `i`
      in place extends the encrypted prefix by one byte, leaves the rest of the
      copy alone, and performs one mix and feedback of the state. */
  lemma EncryptInPlace(state: u64, input: seq<u8>, buf: seq<u8>, i: nat, b: u8)
    requires i < |input| == |buf|
    requires buf[..i] == Encrypt(state, input[..i]) && buf[i..] == input[i..]
    requires b == WrappingAdd8(buf[i], KeyByte(Mix(Fold(state, buf[..i])), i))
    ensures buf[i := b][..i + 1] == Encrypt(state, input[..i + 1])
    ensures buf[i := b][i + 1..] == input[i + 1..]
    ensures Fold(state, buf[i := b][..i + 1]) == Feedback(Mix(Fold(state, buf[..i])), b)
  {
    EncryptSnoc(state, input, i);
    assert buf[i] == input[i] by {
      assert buf[i..][0] == input[i..][0];
    }
    assert buf[i := b][..i + 1] == buf[..i] + [b];
    FoldSnoc(state, buf[..i], b);
    assert buf[i := b][i + 1..] == buf[i + 1..] == buf[i..][1..];
    assert input[i + 1..] == input[i..][1..];
  }

  /** An open, truncated file and the cipher state that encrypts what is
      written to it. The source keeps the state in a `Key` it mutates; here it
      is the word itself. */
  class OutputStream {
    const disk: Disk
    const path: string
    var state: u64

    /** The stream's file is still on the disk. */
    ghost predicate Valid()
      reads this, disk
    {
      path in disk.files
    }

    /** The stream over an already created file, seeded with `key`. */
    constructor Init(disk: Disk, path: string, key: Key)
      ensures this.disk == disk && this.path == path && state == key.value
    {
      this.disk := disk;
      this.path := path;
      state := key.value;
    }

    /** `OutputStream::new`: creates or truncates the file; `None` when the
        disk refuses the path. The state starts as the key's word. */
    static method New(disk: Disk, path: string, key: Key) returns (r: Option<OutputStream>)
      modifies disk
      ensures r.None? <==> path in disk.readOnly
      ensures r.None? ==> disk.files == old(disk.files) && disk.free == old(disk.free)
      ensures r.Some? ==> disk.files == old(disk.files)[path := []]
      ensures r.Some? ==> disk.free == old(disk.free) + (if path in old(disk.files) then |old(disk.files)[path]| else 0)
      ensures r.Some? ==> fresh(r.value) && r.value.Valid()
      ensures r.Some? ==> r.value.disk == disk && r.value.path == path && r.value.state == key.value
    {
      var ok := disk.Create(path);
      if !ok {
        return None;
      }
      var s := new OutputStream.Init(disk, path, key);
      r := Some(s);
    }

    /** The loop of `write_raw`: encrypts `buffer` in place with call-local
        indices, mixing the state and feeding back each ciphertext byte. */
    method EncryptBuffer(buffer: array<u8>)
      modifies this, buffer
      ensures buffer[..] == Encrypt(old(state), old(buffer[..]))
      ensures state == Fold(old(state), buffer[..])
    {
      ghost var input := buffer[..];
      ghost var s0 := state;
      for i := 0 to buffer.Length
        invariant buffer[..i] == Encrypt(s0, input[..i])
        invariant buffer[i..] == input[i..]
        invariant state == Fold(s0, buffer[..i])
      {
        ghost var before := buffer[..];
        state := WrappingMul64(state, MULT);
        var x := KeyByte(state, i);
        buffer[i] := WrappingAdd8(buffer[i], x);
        state := WrappingAdd64(state, WrappingMul64(buffer[i], SCRAMBLE));
        assert buffer[..] == before[i := buffer[i]];
        EncryptInPlace(s0, input, before, i, buffer[i]);
        assert before[..i] == buffer[..i];
      }
      assert input[..buffer.Length] == input;
      assert buffer[..] == buffer[..buffer.Length];
    }

    /** `write_raw`: encrypts a copy of `input` byte by byte with call-local
        indices, then hands the whole buffer to the file. The state advances
        over every ciphertext byte, even those the file does not take; the
        result is the number of bytes the file took. */
    method WriteRaw(input: seq<u8>) returns (n: nat)
      requires Valid()
      modifies this, disk
      ensures Valid()
      ensures n == Min(|input|, old(disk.free))
      ensures disk.files == old(disk.files)[path := old(disk.files)[path] + Encrypt(old(state), input)[..n]]
      ensures disk.free == old(disk.free) - n
      ensures state == Fold(old(state), Encrypt(old(state), input))
    {
      var buffer := new u8[|input|](k requires 0 <= k < |input| => input[k]);
      assert buffer[..] == input;
      EncryptBuffer(buffer);
      n := disk.Write(path, buffer[..]);
    }
  }
}
