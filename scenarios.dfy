/** The repository's own test scenarios, restated over the model: each method
    performs the test's steps on the model, and its ensures state the outcome
    for every key, password and payload rather than one sample, on a disk
    with room for the records, a path it does not refuse, and (for the
    account scenario) a user who has no file yet. */
module Scenarios {
  import opened Words
  import opened Keys
  import opened Cipher
  import opened Wrappers
  import opened Fs
  import opened OutputStreams
  import opened InputStreams
  import opened Records
  import opened Sessions

  /** One raw write through a fresh stream, then one raw read of the same
      length through a fresh stream with the same key: the read restores the
      input, and both streams end in the same state. */
  method RawRoundTrip(disk: Disk, path: string, key: Key, input: seq<u8>)
      returns (output: seq<u8>, written: u64, read: u64)
    requires path !in disk.readOnly && disk.free >= |input|
    modifies disk
    ensures output == input && written == read
  {
    var created := OutputStream.New(disk, path, key);
    var os := created.value;
    var n := os.WriteRaw(input);
    ghost var c := Encrypt(key.value, input);
    assert disk.files[path] == c by {
      assert [] + c[..|c|] == c;
    }
    written := os.state;
    var got := InputStream.New(disk, path, key);
    var ins := got.value;
    var buffer := new u8[|input|];
    var m := ins.ReadRaw(buffer);
    assert ins.data[0..ins.pos] == c;
    DecryptEncrypt(key.value, input);
    output := buffer[..];
    assert output == buffer[..m];
    read := ins.state;
  }

  /** Writing a value through a fresh stream keyed `key`, then reading the
      same kind through a fresh stream with the same key, gives the value
      back, provided the disk has room for the record. */
  method StreamRoundTrip(disk: Disk, path: string, key: Key, v: Value) returns (r: Option<Value>)
    requires path !in disk.readOnly && Serialisable(v)
    requires disk.free >= |RecordCipher(key.value, v)|
    modifies disk
    ensures r == Some(v)
  {
    var created := OutputStream.New(disk, path, key);
    var os := created.value;
    var ok := Write(os, v);
    ghost var c := RecordCipher(key.value, v);
    assert disk.files[path] == c by {
      assert [] + c[..|c|] == c;
    }
    var got := InputStream.New(disk, path, key);
    var ins := got.value;
    r := Read(ins, if v.KeyValue? then KeyKind else TextKind);
    assert ins.data[0..] == c + [];
    DecodeRecordCipher(key.value, v, []);
  }

  /** Before the account exists no login succeeds; creating it succeeds;
      the same credentials then log in; a second creation is refused. */
  method CreateThenAuthenticate(disk: Disk, username: string, password: seq<u8>)
      returns (before: Option<UserSession>, created: Option<UserSession>,
               after: Option<UserSession>, again: Option<UserSession>)
    requires UserPath(username) !in disk.files && UserPath(username) !in disk.readOnly
    requires disk.free >= 8
    modifies disk
    ensures before.None? && again.None?
    ensures created == after == Some(UserSession(username, Key(Derive(password))))
  {
    before := Authenticate(disk, username, password);
    created := Create(disk, username, password);
    assert Header(Key(Derive(password)))[..8] == Header(Key(Derive(password)));
    after := Authenticate(disk, username, password);
    LoginHeader(disk.files, username, password);
    again := Create(disk, username, password);
  }

  /** A session's payload written through `get_ostream` reads back through
      `get_istream`. That the file still logs its owner in is
      `Sessions.PayloadRoundTrip`. */
  method SessionRoundTrip(disk: Disk, s: UserSession, bytes: seq<u8>) returns (r: Option<Value>)
    requires UserPath(s.username) !in disk.readOnly
    requires |bytes| < 0x1_0000_0000_0000_0000 && disk.free >= 16 + |bytes|
    modifies disk
    ensures r == Some(Text(bytes))
  {
    var path := UserPath(s.username);
    var k := s.key;
    var h := Header(k);
    ghost var t := Fold(k.value, h);
    ghost var c := StringCipher(t, bytes);
    assert h[..8] == h && |c| == 8 + |bytes| && c[..|c|] == c;
    assert (h + c)[..8] == h && (h + c)[8..] == c + [];
    DecodeRecordCipher(t, Text(bytes), []);
    ghost var room := disk.free + (if path in disk.files then |disk.files[path]| else 0);
    assert Min(8, room) == 8;
    var outs := GetOStream(s, disk);
    var os := outs.value;
    assert disk.free == room - 8 >= |c|;
    assert os.state == t && RecordCipher(os.state, Text(bytes)) == c;
    ghost var files1 := disk.files;
    assert files1[path] == h;
    var ok := Write(os, Text(bytes));
    assert disk.files == files1[path := h[..8] + c];
    HeaderWrittenAgrees(files1, s, 8, c);
    var ins := GetIStream(s, disk);
    r := Read(ins.value, TextKind);
  }
}
