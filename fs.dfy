/** The part of the filesystem the streams use: named files holding bytes.

    `File::open` succeeds exactly on the paths that exist. `File::create`
    fails on the paths in `readOnly` and otherwise creates or truncates the
    file. `Write::write` appends as many bytes as the disk still has room for
    (`free`) and reports that count, so a full disk gives the short writes the
    record layer checks for. */
module Fs {
  import opened Words
  import opened Wrappers

  /** The smaller of two counts. */
  function Min(a: nat, b: nat): (m: nat)
    ensures m <= a && m <= b && (m == a || m == b)
  {
    if a <= b then a else b
  }

  class Disk {
    /** The files, by path. */
    var files: map<string, seq<u8>>
    /** How many more bytes the disk accepts. */
    var free: nat
    /** The paths that `File::create` refuses to create or truncate. */
    const readOnly: set<string>

    /** A disk with the given files, room and refused paths: a fixture for
        callers of the model, not an operation of the program. */
    constructor (files: map<string, seq<u8>>, free: nat, readOnly: set<string>)
      ensures this.files == files && this.free == free && this.readOnly == readOnly
    {
      this.files := files;
      this.free := free;
      this.readOnly := readOnly;
    }

    /** `File::open` followed by reading the whole file: `None` when the path
        does not exist, the file's bytes otherwise. */
    method Open(path: string) returns (r: Option<seq<u8>>)
      ensures r.None? <==> path !in files
      ensures r.Some? ==> r.value == files[path]
    {
      if path in files {
        r := Some(files[path]);
      } else {
        r := None;
      }
    }

    /** `File::create`: fails on a refused path and changes nothing; otherwise
        the file exists and is empty, and the bytes it held are free again. */
    method Create(path: string) returns (ok: bool)
      modifies this
      ensures ok <==> path !in readOnly
      ensures !ok ==> files == old(files) && free == old(free)
      ensures ok ==> files == old(files)[path := []]
      ensures ok ==> free == old(free) + (if path in old(files) then |old(files)[path]| else 0)
    {
      if path in readOnly {
        ok := false;
      } else {
        free := free + (if path in files then |files[path]| else 0);
        files := files[path := []];
        ok := true;
      }
    }

    /** `Write::write` on an open file: appends the longest prefix of `buf` the
        disk has room for and reports its length. */
    method Write(path: string, buf: seq<u8>) returns (n: nat)
      requires path in files
      modifies this
      ensures n == Min(|buf|, old(free))
      ensures files == old(files)[path := old(files)[path] + buf[..n]]
      ensures free == old(free) - n
    {
      n := Min(|buf|, free);
      files := files[path := files[path] + buf[..n]];
      free := free - n;
    }
  }
}
