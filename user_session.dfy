/** The login protocol: `UserSession`.

    A user's file starts with a key-echo header: the key derived from the
    password, written as a key record by a stream seeded with that same key.
    Logging in derives the key from the offered password, decrypts the header
    with it and compares; the payload that follows the header is read and
    written through streams that first replay or rewrite the header. */
module Sessions {
  import opened Words
  import opened Keys
  import opened Wrappers
  import opened Fs
  import opened OutputStreams
  import opened InputStreams
  import opened Records

  /** A logged-in user: the name and the key derived from the password. */
  datatype UserSession = UserSession(username: string, key: Key)

  /** The path of a user's file. */
  function UserPath(username: string): (p: string)
    ensures |p| == |username| + 11
    ensures p[..6] == "users/" && p[|p| - 5..] == ".data"
    ensures p[6..|p| - 5] == username
  {
    "users/" + username + ".data"
  }

  /** Distinct users have distinct path strings (paths are compared as
      strings; no path resolution is modelled). */
  lemma UserPathInjective(u: string, v: string)
    ensures UserPath(u) == UserPath(v) <==> u == v
  {
  }

  /** The key-echo header of a file owned by key `k`: `k` as a key record
      encrypted from state `k`. */
  function Header(k: Key): (h: seq<u8>)
    ensures |h| == 8
  {
    KeyCipher(k.value, k)
  }

  /** A header read with its own key gives the key back, whatever follows. */
  lemma HeaderDecodes(k: Key, rest: seq<u8>)
    ensures DecodeKey(k.value, Header(k) + rest) == Some(k)
  {
    DecodeKeyCipher(k.value, k, rest);
  }

  /** What `authenticate` answers on the files `files`: no session when the
      file is missing or shorter than a header, or when its header does not
      decrypt to the key derived from `password`; otherwise the session of
      that key. */
  function Login(files: map<string, seq<u8>>, username: string, password: seq<u8>): (r: Option<UserSession>)
    ensures r.Some? ==> r.value == UserSession(username, Key(Derive(password)))
  {
    var path := UserPath(username);
    var k := Key(Derive(password));
    if path !in files then None
    else
      match DecodeKey(k.value, files[path])
      case None => None
      case Some(h) => if h == k then Some(UserSession(username, k)) else None
  }

  /** A login succeeds exactly when the user's file starts with the header of
      the key derived from the password. */
  lemma LoginHeader(files: map<string, seq<u8>>, username: string, password: seq<u8>)
    ensures var path := UserPath(username);
      Login(files, username, password).Some?
      <==> path in files && |files[path]| >= 8 && files[path][..8] == Header(Key(Derive(password)))
  {
    var path := UserPath(username);
    var k := Key(Derive(password));
    if path in files && |files[path]| >= 8 {
      var f := files[path];
      var head := f[..8];
      assert head[..8] == head;
      assert DecodeKey(k.value, f) == DecodeKey(k.value, head);
      KeyCipherDecodeKey(k.value, head);
      HeaderDecodes(k, []);
      assert Header(k) + [] == Header(k);
    }
  }

  /** No file, no login. */
  lemma LoginMissing(files: map<string, seq<u8>>, username: string, password: seq<u8>)
    requires UserPath(username) !in files
    ensures Login(files, username, password) == None
  {
  }

  /** `UserSession::authenticate`: derive the key, open the user's file, read
      one key record with it and compare. */
  method Authenticate(disk: Disk, username: string, password: seq<u8>) returns (r: Option<UserSession>)
    ensures r == Login(disk.files, username, password)
  {
    var path := UserPath(username);
    var key := From(password);
    var got := InputStream.New(disk, path, key);
    if got.None? {
      return None;
    }
    var ins := got.value;
    assert ins.data[ins.pos..] == disk.files[path];
    var keyUser := DeserializeKey(ins);
    if keyUser.None? {
      return None;
    }
    if key == keyUser.value {
      r := Some(UserSession(username, key));
    } else {
      r := None;
    }
  }

  /** `UserSession::create`: refuses a user whose file already exists;
      otherwise creates the file and writes the header. The session is
      returned only when the whole header was written; a short write leaves
      the truncated header on the disk. */
  method Create(disk: Disk, username: string, password: seq<u8>) returns (r: Option<UserSession>)
    modifies disk
    ensures var path := UserPath(username);
      path in old(disk.files) || path in disk.readOnly ==>
        r.None? && disk.files == old(disk.files) && disk.free == old(disk.free)
    ensures var path := UserPath(username);
      var k := Key(Derive(password));
      path !in old(disk.files) && path !in disk.readOnly ==>
        && disk.files == old(disk.files)[path := Header(k)[..Min(8, old(disk.free))]]
        && disk.free == old(disk.free) - Min(8, old(disk.free))
        && (r.Some? <==> old(disk.free) >= 8)
    ensures r.Some? ==> r.value == UserSession(username, Key(Derive(password)))
  {
    var path := UserPath(username);
    var file := disk.Open(path);
    if file.Some? {
      return None;
    }
    var key := From(password);
    var created := OutputStream.New(disk, path, key);
    if created.None? {
      return None;
    }
    var os := created.value;
    ghost var files1 := disk.files;
    var ok := SerializeKey(os, key);
    assert [] + Header(key)[..Min(8, old(disk.free))] == Header(key)[..Min(8, old(disk.free))];
    assert files1[path := Header(key)[..Min(8, old(disk.free))]]
        == old(disk.files)[path := Header(key)[..Min(8, old(disk.free))]];
    if !ok {
      return None;
    }
    r := Some(UserSession(username, key));
  }

  /** The file agrees with the session: if its header can be read with the
      session key, it decrypts to that key (`get_istream` asserts this). */
  ghost predicate HeaderAgrees(files: map<string, seq<u8>>, s: UserSession) {
    var path := UserPath(s.username);
    path in files && DecodeKey(s.key.value, files[path]).Some? ==> DecodeKey(s.key.value, files[path]).value == s.key
  }

  /** A session obtained by logging in agrees with the file it came from. */
  lemma LoginAgrees(files: map<string, seq<u8>>, username: string, password: seq<u8>)
    requires Login(files, username, password).Some?
    ensures HeaderAgrees(files, Login(files, username, password).value)
  {
  }

  /** A file holding a prefix of the session's header, or the whole header
      followed by anything, agrees with the session. */
  lemma HeaderWrittenAgrees(files: map<string, seq<u8>>, s: UserSession, n: nat, payload: seq<u8>)
    requires n <= 8
    requires n < 8 ==> payload == []
    ensures HeaderAgrees(files[UserPath(s.username) := Header(s.key)[..n] + payload], s)
  {
    if n == 8 {
      assert Header(s.key)[..8] == Header(s.key);
      HeaderDecodes(s.key, payload);
    }
  }

  /** `UserSession::get_istream`: opens the user's file with the session key
      and reads the header, leaving the stream at the payload. `None` when the
      file is missing or shorter than a header. */
  method GetIStream(s: UserSession, disk: Disk) returns (r: Option<InputStream>)
    requires HeaderAgrees(disk.files, s)
    ensures var path := UserPath(s.username);
      r.None? <==> path !in disk.files || |disk.files[path]| < 8
    ensures r.Some? ==> fresh(r.value) && r.value.Valid()
    ensures r.Some? ==> r.value.data == disk.files[UserPath(s.username)] && r.value.pos == 8
    ensures r.Some? ==> r.value.seed == s.key.value && r.value.state == Fold(s.key.value, r.value.data[..8])
  {
    var got := InputStream.New(disk, UserPath(s.username), s.key);
    if got.None? {
      return None;
    }
    var ins := got.value;
    assert ins.data[ins.pos..] == ins.data;
    var key := DeserializeKey(ins);
    if key.None? {
      return None;
    }
    assert key.value == s.key;
    assert ins.data[0..ins.pos] == ins.data[..8];
    r := Some(ins);
  }

  /** `UserSession::get_ostream`: creates or truncates the user's file and
      rewrites the header; the stream is left ready for the payload. The old
      contents are gone whatever happens after the truncation. */
  method GetOStream(s: UserSession, disk: Disk) returns (r: Option<OutputStream>)
    modifies disk
    ensures var path := UserPath(s.username);
      path in disk.readOnly ==> r.None? && disk.files == old(disk.files) && disk.free == old(disk.free)
    ensures var path := UserPath(s.username);
      var room := old(disk.free) + (if path in old(disk.files) then |old(disk.files)[path]| else 0);
      path !in disk.readOnly ==>
        && disk.files == old(disk.files)[path := Header(s.key)[..Min(8, room)]]
        && disk.free == room - Min(8, room)
        && (r.Some? <==> room >= 8)
    ensures r.Some? ==> fresh(r.value) && r.value.Valid() && r.value.disk == disk
    ensures r.Some? ==> r.value.path == UserPath(s.username) && r.value.state == Fold(s.key.value, Header(s.key))
  {
    var path := UserPath(s.username);
    var created := OutputStream.New(disk, path, s.key);
    if created.None? {
      return None;
    }
    var os := created.value;
    ghost var files1 := disk.files;
    ghost var room := disk.free;
    var ok := SerializeKey(os, s.key);
    assert [] + Header(s.key)[..Min(8, room)] == Header(s.key)[..Min(8, room)];
    assert files1[path := Header(s.key)[..Min(8, room)]]
        == old(disk.files)[path := Header(s.key)[..Min(8, room)]];
    if !ok {
      return None;
    }
    r := Some(os);
  }

  /** A payload written after the header is read back after the header: the
      file still logs the owner in, the header leaves the reader in the state
      the writer had, and the string record decodes to the payload. */
  lemma PayloadRoundTrip(username: string, password: seq<u8>, bytes: seq<u8>, rest: seq<u8>)
    requires |bytes| < 0x1_0000_0000_0000_0000
    ensures var k := Key(Derive(password));
      var t := Fold(k.value, Header(k));
      var file := Header(k) + StringCipher(t, bytes) + rest;
      && Login(map[UserPath(username) := file], username, password) == Some(UserSession(username, k))
      && file[..8] == Header(k)
      && DecodeString(t, file[8..]) == Some(bytes)
  {
    var k := Key(Derive(password));
    var h := Header(k);
    var c := StringCipher(Fold(k.value, h), bytes);
    AppendAssoc(h, c, rest);
    var file := h + (c + rest);
    assert file[..8] == h;
    assert file[8..] == c + rest;
    DecodeStringCipher(Fold(k.value, h), bytes, rest);
    var files := map[UserPath(username) := file];
    LoginHeader(files, username, password);
  }
}
