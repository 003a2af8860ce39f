/** The record codec: how a `Key` and a `String` are written to an encrypted
    stream and read back (the two `Serializable` implementations), and the
    generic `write` / `read` that dispatch to them.

    Every value goes through the raw stream calls, so a record is described
    by the ciphertext it occupies in the file. A `Key` is one raw call over
    its 8-byte image. A `String` is one raw call over the 8-byte image of its
    length, then one raw call per byte; each of those calls starts its own
    call-local index at 0. */
module Records {
  import opened Words
  import opened Keys
  import opened Wire
  import opened Cipher
  import opened Wrappers
  import opened Fs
  import opened OutputStreams
  import opened InputStreams

  // ---------------------------------------------------------------------
  // Keys

  /** The 8 ciphertext bytes of a key record written from `state`. */
  function KeyCipher(state: u64, k: Key): (c: seq<u8>)
    ensures |c| == 8
  {
    Encrypt(state, LeBytes(k.value))
  }

  /** The key a reader at `state` takes from the ciphertext `rest`: none when
      fewer than 8 bytes remain, otherwise the decrypted 8-byte image. */
  function DecodeKey(state: u64, rest: seq<u8>): (r: Option<Key>)
    ensures r.None? <==> |rest| < 8
  {
    if |rest| < 8 then None else Some(Key(FromLe(Decrypt(state, rest[..8]))))
  }

  /** A key record reads back as the key, whatever follows it. */
  lemma DecodeKeyCipher(state: u64, k: Key, rest: seq<u8>)
    ensures DecodeKey(state, KeyCipher(state, k) + rest) == Some(k)
  {
    assert (KeyCipher(state, k) + rest)[..8] == KeyCipher(state, k);
    DecryptEncrypt(state, LeBytes(k.value));
    FromLeLeBytes(k.value);
  }

  /** Every 8 bytes are the record of exactly the key decoded from them. */
  lemma KeyCipherDecodeKey(state: u64, c: seq<u8>)
    requires |c| == 8
    ensures DecodeKey(state, c).Some?
    ensures KeyCipher(state, DecodeKey(state, c).value) == c
  {
    assert c[..8] == c;
    LeBytesFromLe(Decrypt(state, c));
    EncryptDecrypt(state, c);
  }

  /** `Key::serialize`: one raw write of the key's 8-byte image; succeeds
      exactly when the file took all 8 bytes. The state advances over all 8
      ciphertext bytes either way. */
  method SerializeKey(os: OutputStream, k: Key) returns (ok: bool)
    requires os.Valid()
    modifies os, os.disk
    ensures os.Valid()
    ensures ok <==> old(os.disk.free) >= 8
    ensures os.disk.files == old(os.disk.files)[os.path := old(os.disk.files)[os.path] + KeyCipher(old(os.state), k)[..Min(8, old(os.disk.free))]]
    ensures os.disk.free == old(os.disk.free) - Min(8, old(os.disk.free))
    ensures os.state == Fold(old(os.state), KeyCipher(old(os.state), k))
  {
    var n := os.WriteRaw(LeBytes(k.value));
    ok := n == 8;
  }

  /** `Key::deserialize`: one raw read into an 8-byte buffer; the key when all
      8 bytes arrived, `None` otherwise. */
  method DeserializeKey(ins: InputStream) returns (r: Option<Key>)
    requires ins.Valid()
    modifies ins
    ensures ins.Valid()
    ensures r == DecodeKey(old(ins.state), ins.data[old(ins.pos)..])
    ensures ins.pos == old(ins.pos) + Min(8, |ins.data| - old(ins.pos))
    ensures ins.state == Fold(old(ins.state), ins.data[old(ins.pos)..ins.pos])
  {
    ghost var rest := ins.data[ins.pos..];
    var buffer, n := ReadStream(ins, 8);
    if n == 8 {
      assert buffer == buffer[..n];
      assert rest[..8] == ins.data[old(ins.pos)..ins.pos];
      r := Some(Key(FromLe(buffer)));
    } else {
      r := None;
    }
  }

  // ---------------------------------------------------------------------
  // Strings

  /** The ciphertext of `bytes` written with one raw call per byte from
      `state`: every byte is keyed with call-local index 0. */
  function EncryptEach(state: u64, bytes: seq<u8>): (c: seq<u8>)
    ensures |c| == |bytes|
  {
    if bytes == [] then []
    else
      var prev := EncryptEach(state, bytes[..|bytes| - 1]);
      prev + Encrypt(Fold(state, prev), [bytes[|bytes| - 1]])
  }

  /** The bytes read back from `cipher` with one raw call per byte. */
  function DecryptEach(state: u64, cipher: seq<u8>): (p: seq<u8>)
    ensures |p| == |cipher|
  {
    if cipher == [] then []
    else
      var prev := cipher[..|cipher| - 1];
      DecryptEach(state, prev) + Decrypt(Fold(state, prev), [cipher[|cipher| - 1]])
  }

  /** Per-byte encryption is online: a prefix of the ciphertext is the
      ciphertext of the same prefix. */
  lemma {:induction false} EncryptEachPrefix(state: u64, bytes: seq<u8>, k: nat)
    requires k <= |bytes|
    ensures EncryptEach(state, bytes)[..k] == EncryptEach(state, bytes[..k])
  {
    if k < |bytes| {
      var init := bytes[..|bytes| - 1];
      assert EncryptEach(state, bytes)[..|bytes| - 1] == EncryptEach(state, init);
      EncryptEachPrefix(state, init, k);
      assert init[..k] == bytes[..k];
    } else {
      assert bytes[..k] == bytes;
    }
  }

  /** Reading byte records back with the same starting state restores them. */
  lemma {:induction false} DecryptEachEncryptEach(state: u64, bytes: seq<u8>)
    ensures DecryptEach(state, EncryptEach(state, bytes)) == bytes
  {
    if bytes != [] {
      var n := |bytes|;
      var init := bytes[..n - 1];
      var prev := EncryptEach(state, init);
      var last := Encrypt(Fold(state, prev), [bytes[n - 1]]);
      var c := EncryptEach(state, bytes);
      assert c == prev + last;
      assert c[..n - 1] == prev && [c[n - 1]] == last;
      DecryptEachEncryptEach(state, init);
      DecryptEncrypt(Fold(state, prev), [bytes[n - 1]]);
      assert bytes == init + [bytes[n - 1]];
    }
  }

  /** The full ciphertext of a string record from `state`: the 8-byte length
      prefix, then the per-byte records. */
  function StringCipher(state: u64, bytes: seq<u8>): (c: seq<u8>)
    requires |bytes| < 0x1_0000_0000_0000_0000
    ensures |c| == 8 + |bytes|
  {
    var prefix := Encrypt(state, LeBytes(|bytes|));
    prefix + EncryptEach(Fold(state, prefix), bytes)
  }

  /** The string a reader at `state` takes from the ciphertext `rest`: none
      when the length prefix is short or fewer bytes than it announces
      follow, otherwise exactly that many bytes, decrypted one by one. */
  function DecodeString(state: u64, rest: seq<u8>): (r: Option<seq<u8>>)
    ensures |rest| < 8 ==> r.None?
    ensures r.Some? ==> 8 + |r.value| <= |rest|
  {
    if |rest| < 8 then None
    else
      var len := FromLe(Decrypt(state, rest[..8]));
      if |rest| - 8 < len then None
      else Some(DecryptEach(Fold(state, rest[..8]), rest[8..8 + len]))
  }

  /** How many bytes of `rest` a string read consumes: the whole record on
      success, and on failure everything up to the end of the file. */
  function StringConsumed(state: u64, rest: seq<u8>): (n: nat)
    ensures n <= |rest|
  {
    match DecodeString(state, rest)
    case Some(bytes) => 8 + |bytes|
    case None => |rest|
  }

  /** A string record reads back as the string, and a read consumes exactly
      the record, whatever follows it. */
  lemma DecodeStringCipher(state: u64, bytes: seq<u8>, rest: seq<u8>)
    requires |bytes| < 0x1_0000_0000_0000_0000
    ensures DecodeString(state, StringCipher(state, bytes) + rest) == Some(bytes)
    ensures StringConsumed(state, StringCipher(state, bytes) + rest) == 8 + |bytes|
  {
    var prefix := Encrypt(state, LeBytes(|bytes|));
    var body := EncryptEach(Fold(state, prefix), bytes);
    var all := StringCipher(state, bytes) + rest;
    assert all == prefix + body + rest;
    assert all[..8] == prefix;
    DecryptEncrypt(state, LeBytes(|bytes|));
    FromLeLeBytes(|bytes|);
    assert all[8..8 + |bytes|] == body;
    DecryptEachEncryptEach(Fold(state, prefix), bytes);
  }

  /** A string record cut short anywhere does not read back. */
  lemma DecodeStringTruncated(state: u64, bytes: seq<u8>, k: nat)
    requires |bytes| < 0x1_0000_0000_0000_0000
    requires k < 8 + |bytes|
    ensures DecodeString(state, StringCipher(state, bytes)[..k]) == None
  {
    var c := StringCipher(state, bytes);
    if k >= 8 {
      var prefix := Encrypt(state, LeBytes(|bytes|));
      assert c[..k][..8] == prefix;
      DecryptEncrypt(state, LeBytes(|bytes|));
      FromLeLeBytes(|bytes|);
    }
  }

  /** The empty string is the length prefix alone, and reads back as the
      empty string. */
  lemma EmptyStringCipher(state: u64)
    ensures StringCipher(state, []) == Encrypt(state, LeBytes(0))
    ensures DecodeString(state, StringCipher(state, [])) == Some([])
  {
    DecodeStringCipher(state, [], []);
    assert StringCipher(state, []) + [] == StringCipher(state, []);
  }

  /** How many ciphertext bytes the stream state advances over when a string
      record of `len` bytes meets a disk with room for `free` bytes: the
      prefix call always runs, and the per-byte calls run up to and including
      the first one the file refuses. */
  function StringProcessed(len: nat, free: nat): (n: nat)
    ensures 8 <= n <= 8 + len
    ensures n < 8 + len ==> free < n
    ensures n == 8 || n <= free + 1
  {
    if free < 8 then 8 else Min(8 + len, free + 1)
  }

  /** The prefix of a string record up to byte record `i` is the length
      prefix followed by the first `i` byte records. */
  lemma StringCipherPrefix(state: u64, bytes: seq<u8>, i: nat)
    requires |bytes| < 0x1_0000_0000_0000_0000 && i <= |bytes|
    ensures var prefix := Encrypt(state, LeBytes(|bytes|));
      StringCipher(state, bytes)[..8 + i] == prefix + EncryptEach(Fold(state, prefix), bytes[..i])
  {
    var prefix := Encrypt(state, LeBytes(|bytes|));
    EncryptEachPrefix(Fold(state, prefix), bytes, i);
    assert StringCipher(state, bytes)[..8 + i] == prefix + EncryptEach(Fold(state, prefix), bytes)[..i];
  }

  /** Byte record `i` is one raw call over byte `i`, from the state reached
      after the records before it. */
  lemma EncryptEachStep(state: u64, bytes: seq<u8>, i: nat)
    requires i < |bytes|
    ensures var e := EncryptEach(state, bytes);
      e[..i + 1] == e[..i] + Encrypt(Fold(state, e[..i]), [bytes[i]])
  {
    EncryptEachPrefix(state, bytes, i);
    EncryptEachPrefix(state, bytes, i + 1);
    assert bytes[..i + 1][..i] == bytes[..i];
  }

  /** The loop of `String::serialize`: one raw write per byte, giving up at
      the first write the file does not take. The state advances over the
      records up to and including the refused one. */
  method WriteBytes(os: OutputStream, bytes: seq<u8>) returns (ok: bool)
    requires os.Valid()
    modifies os, os.disk
    ensures os.Valid()
    ensures ok <==> old(os.disk.free) >= |bytes|
    ensures var e := EncryptEach(old(os.state), bytes);
      os.disk.files == old(os.disk.files)[os.path := old(os.disk.files)[os.path] + e[..Min(|bytes|, old(os.disk.free))]]
    ensures os.disk.free == old(os.disk.free) - Min(|bytes|, old(os.disk.free))
    ensures os.state == Fold(old(os.state), EncryptEach(old(os.state), bytes)[..Min(|bytes|, old(os.disk.free) + 1)])
  {
    ghost var s0 := os.state;
    ghost var f := os.disk.free;
    ghost var file := os.disk.files[os.path];
    ghost var e := EncryptEach(s0, bytes);
    assert file + e[..0] == file;
    assert old(os.disk.files)[os.path := file] == old(os.disk.files);
    for i := 0 to |bytes|
      invariant os.Valid()
      invariant os.disk.free == f - i
      invariant os.disk.files == old(os.disk.files)[os.path := file + e[..i]]
      invariant os.state == Fold(s0, e[..i])
    {
      ghost var record := Encrypt(os.state, [bytes[i]]);
      EncryptEachStep(s0, bytes, i);
      FoldAppend(s0, e[..i], record);
      var m := os.WriteRaw([bytes[i]]);
      UpdateTwice(old(os.disk.files), os.path, file + e[..i], file + e[..i] + record[..m]);
      if m != 1 {
        assert file + e[..i] + record[..m] == file + e[..i];
        return false;
      }
      assert record[..m] == record;
      AppendAssoc(file, e[..i], record);
    }
    assert e[..|bytes|] == e;
    ok := true;
  }

  /** `String::serialize`: the length prefix, then one raw write per byte,
      giving up at the first write the file does not take in full. */
  method SerializeString(os: OutputStream, bytes: seq<u8>) returns (ok: bool)
    requires os.Valid()
    requires |bytes| < 0x1_0000_0000_0000_0000
    modifies os, os.disk
    ensures os.Valid()
    ensures ok <==> old(os.disk.free) >= 8 + |bytes|
    ensures var c := StringCipher(old(os.state), bytes);
      os.disk.files == old(os.disk.files)[os.path := old(os.disk.files)[os.path] + c[..Min(|c|, old(os.disk.free))]]
    ensures os.disk.free == old(os.disk.free) - Min(8 + |bytes|, old(os.disk.free))
    ensures os.state == Fold(old(os.state), StringCipher(old(os.state), bytes)[..StringProcessed(|bytes|, old(os.disk.free))])
  {
    ghost var s0 := os.state;
    ghost var f := os.disk.free;
    ghost var file := os.disk.files[os.path];
    ghost var prefix := Encrypt(s0, LeBytes(|bytes|));
    ghost var c := StringCipher(s0, bytes);
    var n := os.WriteRaw(LeBytes(|bytes|));
    if n != 8 {
      assert c[..n] == prefix[..n];
      return false;
    }
    assert prefix[..8] == prefix;
    ghost var t := os.state;
    ghost var files1 := os.disk.files;
    ok := WriteBytes(os, bytes);
    ghost var e := EncryptEach(t, bytes);
    ghost var k := Min(|bytes|, f - 8);
    ghost var k' := Min(|bytes|, f - 8 + 1);
    assert c[..8 + k] == prefix + e[..k] by {
      StringCipherPrefix(s0, bytes, k);
      EncryptEachPrefix(t, bytes, k);
    }
    assert c[..8 + k'] == prefix + e[..k'] by {
      StringCipherPrefix(s0, bytes, k');
      EncryptEachPrefix(t, bytes, k');
    }
    assert files1[os.path] == file + prefix;
    UpdateTwice(old(os.disk.files), os.path, file + prefix, file + prefix + e[..k]);
    AppendAssoc(file, prefix, e[..k]);
    assert Min(|c|, f) == 8 + k && StringProcessed(|bytes|, f) == 8 + k';
    FoldAppend(s0, prefix, e[..k']);
  }

  /** Reading byte record `j` is one raw read of one byte, from the state
      reached after the records before it. */
  lemma DecryptEachStep(state: u64, cipher: seq<u8>, j: nat)
    requires j < |cipher|
    ensures DecryptEach(state, cipher[..j + 1])
         == DecryptEach(state, cipher[..j]) + Decrypt(Fold(state, cipher[..j]), cipher[j..j + 1])
    ensures Fold(state, cipher[..j + 1]) == Fold(Fold(state, cipher[..j]), cipher[j..j + 1])
  {
    assert cipher[..j + 1][..j] == cipher[..j];
    assert cipher[j..j + 1] == [cipher[j]];
    assert cipher[..j + 1] == cipher[..j] + cipher[j..j + 1];
    FoldAppend(state, cipher[..j], cipher[j..j + 1]);
  }

  /** One more byte record read from `data[to]`: the decrypted bytes and the
      state over `data[from..to]` extend to `data[from..to + 1]`. */
  lemma ReadByteStep(data: seq<u8>, from: nat, to: nat, state: u64, bytes: seq<u8>, b: u8, st: u64)
    requires from <= to < |data|
    requires bytes == DecryptEach(state, data[from..to])
    requires [b] == Decrypt(Fold(state, data[from..to]), data[to..to + 1])
    requires st == Fold(Fold(state, data[from..to]), data[to..to + 1])
    ensures bytes + [b] == DecryptEach(state, data[from..to + 1])
    ensures st == Fold(state, data[from..to + 1])
  {
    var c := data[from..to + 1];
    assert c[..to - from] == data[from..to];
    assert c[to - from..to - from + 1] == data[to..to + 1];
    DecryptEachStep(state, c, to - from);
    assert c[..to - from + 1] == c;
  }

  /** The loop of `String::deserialize`: one raw read per byte, `len` times,
      giving up at the first read that comes back short. */
  method ReadBytes(ins: InputStream, len: nat) returns (r: Option<seq<u8>>)
    requires ins.Valid()
    modifies ins
    ensures ins.Valid()
    ensures var rest := ins.data[old(ins.pos)..];
      r == if |rest| < len then None else Some(DecryptEach(old(ins.state), rest[..len]))
    ensures ins.pos == old(ins.pos) + Min(len, |ins.data| - old(ins.pos))
    ensures ins.state == Fold(old(ins.state), ins.data[old(ins.pos)..ins.pos])
  {
    ghost var s0 := ins.state;
    ghost var p0 := ins.pos;
    var bytes: seq<u8> := [];
    for j := 0 to len
      invariant ins.Valid()
      invariant ins.pos == p0 + j <= |ins.data|
      invariant bytes == DecryptEach(s0, ins.data[p0..ins.pos])
      invariant ins.state == Fold(s0, ins.data[p0..ins.pos])
    {
      ghost var at := ins.pos;
      var one, m := ReadStream(ins, 1);
      if m != 1 {
        return None;
      }
      assert ins.pos == at + 1 && [one[0]] == one[..1];
      ReadByteStep(ins.data, p0, at, s0, bytes, one[0], ins.state);
      bytes := bytes + [one[0]];
    }
    assert ins.data[p0..][..len] == ins.data[p0..ins.pos];
    r := Some(bytes);
  }

  /** A string record at `p0` of `data` whose prefix is whole: it decodes to
      the bytes the body reads give, and a read consumes the prefix and what
      the body reads take. */
  lemma StringReadTail(data: seq<u8>, p0: nat, state: u64, len: nat)
    requires p0 + 8 <= |data| && len == FromLe(Decrypt(state, data[p0..p0 + 8]))
    ensures var body := data[p0 + 8..];
      DecodeString(state, data[p0..])
      == if |body| < len then None else Some(DecryptEach(Fold(state, data[p0..p0 + 8]), body[..len]))
    ensures StringConsumed(state, data[p0..]) == 8 + Min(len, |data| - (p0 + 8))
  {
    var rest := data[p0..];
    assert rest[..8] == data[p0..p0 + 8];
    if len <= |data| - (p0 + 8) {
      assert rest[8..8 + len] == data[p0 + 8..][..len];
    }
  }

  /** `String::deserialize`: the length prefix, then one raw read per byte,
      giving up at the first read that comes back short. */
  method DeserializeString(ins: InputStream) returns (r: Option<seq<u8>>)
    requires ins.Valid()
    modifies ins
    ensures ins.Valid()
    ensures r == DecodeString(old(ins.state), ins.data[old(ins.pos)..])
    ensures ins.pos == old(ins.pos) + StringConsumed(old(ins.state), ins.data[old(ins.pos)..])
    ensures ins.state == Fold(old(ins.state), ins.data[old(ins.pos)..ins.pos])
  {
    ghost var s0 := ins.state;
    ghost var p0 := ins.pos;
    var prefix, n := ReadStream(ins, 8);
    if n != 8 {
      assert ins.data[p0..] == ins.data[p0..ins.pos];
      return None;
    }
    assert prefix == prefix[..n];
    var len := FromLe(prefix);
    StringReadTail(ins.data, p0, s0, len);
    ghost var t := ins.state;
    assert t == Fold(s0, ins.data[p0..p0 + 8]);
    r := ReadBytes(ins, len);
    SliceSplit(ins.data, p0, p0 + 8, ins.pos);
    FoldAppend(s0, ins.data[p0..p0 + 8], ins.data[p0 + 8..ins.pos]);
  }

  // ---------------------------------------------------------------------
  // Dispatch

  /** A value of one of the two serialisable types. */
  datatype Value = KeyValue(key: Key) | Text(bytes: seq<u8>)

  /** The type a read asks for. */
  datatype Kind = KeyKind | TextKind

  /** A value that can be serialised: a string's length fits the prefix. */
  predicate Serialisable(v: Value) {
    v.Text? ==> |v.bytes| < 0x1_0000_0000_0000_0000
  }

  /** The ciphertext of the record of `v` written from `state`. */
  function RecordCipher(state: u64, v: Value): (c: seq<u8>)
    requires Serialisable(v)
    ensures |c| >= 8
  {
    match v
    case KeyValue(k) => KeyCipher(state, k)
    case Text(bytes) => StringCipher(state, bytes)
  }

  /** The value of the requested kind a reader at `state` takes from `rest`. */
  function Decode(state: u64, kind: Kind, rest: seq<u8>): (r: Option<Value>)
    ensures r.Some? ==> (r.value.KeyValue? <==> kind.KeyKind?)
  {
    match kind
    case KeyKind => (match DecodeKey(state, rest) case Some(k) => Some(KeyValue(k)) case None => None)
    case TextKind => (match DecodeString(state, rest) case Some(b) => Some(Text(b)) case None => None)
  }

  /** How many bytes of `rest` a read of the requested kind consumes: a key
      read takes up to 8 bytes, a string read what `StringConsumed` says. */
  function Consumed(state: u64, kind: Kind, rest: seq<u8>): (n: nat)
    ensures n <= |rest|
    ensures kind.KeyKind? ==> n == 8 || n == |rest| < 8
  {
    match kind
    case KeyKind => Min(8, |rest|)
    case TextKind => StringConsumed(state, rest)
  }

  /** A record reads back as the value written, when read as its own kind,
      and the read consumes exactly the record. */
  lemma DecodeRecordCipher(state: u64, v: Value, rest: seq<u8>)
    requires Serialisable(v)
    ensures var kind := if v.KeyValue? then KeyKind else TextKind;
      && Decode(state, kind, RecordCipher(state, v) + rest) == Some(v)
      && Consumed(state, kind, RecordCipher(state, v) + rest) == |RecordCipher(state, v)|
  {
    match v
    case KeyValue(k) => DecodeKeyCipher(state, k, rest);
    case Text(bytes) => DecodeStringCipher(state, bytes, rest);
  }

  /** How many ciphertext bytes the stream state advances over when the
      record of `v` meets a disk with room for `free` bytes: all 8 bytes of
      a key record, and for a string what `StringProcessed` says. */
  function RecordProcessed(v: Value, free: nat): (n: nat)
    ensures 8 <= n
    ensures v.KeyValue? ==> n == 8
    ensures v.Text? ==> n <= 8 + |v.bytes|
  {
    match v
    case KeyValue(_) => 8
    case Text(bytes) => StringProcessed(|bytes|, free)
  }

  /** `OutputStream::write`: the value's own `serialize` on this stream. */
  method Write(os: OutputStream, v: Value) returns (ok: bool)
    requires os.Valid() && Serialisable(v)
    modifies os, os.disk
    ensures os.Valid()
    ensures var c := RecordCipher(old(os.state), v);
      && (ok <==> old(os.disk.free) >= |c|)
      && os.disk.files == old(os.disk.files)[os.path := old(os.disk.files)[os.path] + c[..Min(|c|, old(os.disk.free))]]
      && os.disk.free == old(os.disk.free) - Min(|c|, old(os.disk.free))
    ensures os.state == Fold(old(os.state), RecordCipher(old(os.state), v)[..RecordProcessed(v, old(os.disk.free))])
  {
    match v
    case KeyValue(k) =>
      ok := SerializeKey(os, k);
      assert KeyCipher(old(os.state), k)[..8] == KeyCipher(old(os.state), k);
    case Text(bytes) => ok := SerializeString(os, bytes);
  }

  /** `InputStream::read`: the requested type's own `deserialize` on this
      stream. */
  method Read(ins: InputStream, kind: Kind) returns (r: Option<Value>)
    requires ins.Valid()
    modifies ins
    ensures ins.Valid()
    ensures r == Decode(old(ins.state), kind, ins.data[old(ins.pos)..])
    ensures ins.pos == old(ins.pos) + Consumed(old(ins.state), kind, ins.data[old(ins.pos)..])
    ensures ins.state == Fold(old(ins.state), ins.data[old(ins.pos)..ins.pos])
  {
    match kind
    case KeyKind =>
      var k := DeserializeKey(ins);
      r := if k.Some? then Some(KeyValue(k.value)) else None;
    case TextKind =>
      var b := DeserializeString(ins);
      r := if b.Some? then Some(Text(b.value)) else None;
  }
}
