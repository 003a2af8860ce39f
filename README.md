# rust-notes-app: encrypted user files, modelled in Dafny

The notes application keeps each user's data in one file, `users/<name>.data`.
The file is encrypted with a key derived from the user's password. This project
models the storage layer of that application and proves what it promises:

- **Keys** (`Keys`). `Key::from` folds the password bytes into one 64-bit word
  with a wrapping multiply-add. The seed is `0x3D9CA05D5422EDE9`, the multiplier
  is 709, and each byte is scaled by `0xECD96C09EEFC5F6D`.
- **The stream cipher** (`Cipher`, `OutputStreams`, `InputStreams`).
  - Each raw call runs its own byte index from 0.
  - For each byte, the state is multiplied by 709.
  - Byte `i mod 8` of the mixed state is added to the plaintext (write) or
    subtracted from the ciphertext (read).
  - The ciphertext byte times the scramble constant is then added back to the
    state.
  - Both directions feed back the ciphertext, so a stream's state is always the
    key-derivation fold taken over the ciphertext it has processed.
- **The record codec** (`Records`).
  - A `Key` is written as one raw call over its 8-byte image.
  - A `String` is written as one raw call over its 8-byte length, then one raw
    call per byte.
  - `write`/`read` dispatch on the value's type.
- **Sessions** (`Sessions`).
  - A user's file starts with a header: the key itself, written by a stream
    keyed with that key.
  - `authenticate` decrypts the header with the key derived from the offered
    password and compares.
  - `create` refuses an existing user and writes the header.
  - `get_istream` and `get_ostream` replay or rewrite the header and leave a
    stream positioned at the payload.
- **The filesystem** (`Fs.Disk`). A map from paths to bytes, a count of free
  bytes, and a set of paths that cannot be created. A full disk gives the short
  writes that the record layer checks for.
- **The repository's tests** (`Scenarios`). They are restated as methods that
  hold for every key, password and payload, on a disk with room for the
  records and a path it does not refuse, and, for the account scenario, a
  user who has no file yet.

Integers are unbounded in Dafny. The source's `u64`/`u8` wrap-around is written
out explicitly (`Words.WrappingMul64` and the related functions). `usize` is
taken as 64 bits and the native byte order as little-endian.

## Model

| member | source | states |
|---|---|---|
| Keys.Absorb | src/serial/key.rs:26-28 | one derivation step: the wrapping multiply by 709 plus the wrapping product of the byte and `0xECD96C09EEFC5F6D` (definition; its closed form is `AbsorbMultiplyAdd`) |
| Keys.Fold | src/serial/key.rs:25-29 | the left fold of `Absorb` over a byte sequence (definition; shared by derivation and the cipher state) |
| Keys.Derive | src/serial/key.rs:24-30 | the key word of a password: `Fold` from `INITIAL` (definition; `From` is proved against it) |
| Keys.From | src/serial/key.rs:23-31 | the loop's key is the left fold of the wrapping multiply-add over the password bytes, from the seed (`Derive`) |
| Keys.DeriveEmpty | src/serial/key.rs:4 | the empty password derives the seed `0x3D9CA05D5422EDE9` |
| Keys.AbsorbMultiplyAdd | src/serial/key.rs:26-28 | wrapping the product, the scaled byte and the sum separately equals one multiply-add modulo 2^64 |
| Keys.DeriveSnoc | src/serial/key.rs:25-28 | one more password byte `c` maps the key `v` to `(v*709 + c*0xECD96C09EEFC5F6D) mod 2^64` |
| Keys.FoldAppend | src/serial/key.rs:25-29 | folding over `p + q` equals folding over `q` from the accumulator reached after `p`; so a stream's state depends only on the concatenated ciphertext, not on call boundaries |
| Keys.DerivePrefix | src/serial/key.rs:25-29 | passwords with a common prefix share the accumulator after that prefix |
| Keys.KeyEquality | src/serial/key.rs:14-17 | two keys are equal exactly when their words are equal (derived `PartialEq`) |
| Keys.DeriveSamplePrefix | src/tests.rs:7-10 | the ASCII bytes "12345" derive `0x63a41e8c78a82bd0` |
| Keys.DeriveSample123456 | src/tests.rs:7 | "123456" derives `0xeb65652292fd780e` |
| Keys.DeriveSample123457 | src/tests.rs:10 | "123457" derives `0xd83ed12c81f9d77b` |
| Keys.DeriveSample1234567 | src/tests.rs:9 | "1234567" derives `0xd2874ee37035ff31` |
| Keys.SampleKeysDistinct | src/tests.rs:5-18 | the keys of "123456", "1234567" and "123457" are pairwise distinct (the `assert_ne!`s of `test_key1`) |
| Wire.Pow256 | src/serial/output_stream.rs:58-65 | powers of 256 used by the byte image are positive |
| Wire.Value | src/serial/input_stream.rs:58-65 | the number read from `n` little-endian bytes is below 256^n |
| Wire.LeBytes | src/serial/output_stream.rs:60-62 | the `transmute` of a word to `[u8; 8]`, little-endian; always 8 bytes |
| Wire.FromLe | src/serial/input_stream.rs:62 | the `transmute` of `[u8; 8]` back to a word (definition; its inverse laws are `FromLeLeBytes` and `LeBytesFromLe`) |
| Wire.DigitsAt | src/serial/output_stream.rs:58-65 | byte `j` of a word's image is the word shifted right by `8*j` bits, masked to 8 bits |
| Wire.FromLeLeBytes | src/serial/output_stream.rs:58-65 | reading back a word's 8-byte image (`transmute` there and back) gives the word |
| Wire.LeBytesFromLe | src/serial/input_stream.rs:58-65 | every 8-byte buffer is the image of the word read from it |
| Wire.LeBytesInjective | src/serial/output_stream.rs:58-65 | distinct words have distinct images, and conversely |
| Cipher.Mix | src/serial/output_stream.rs:34 | the first half of a step: the state times 709, wrapping (definition) |
| Cipher.KeyByte | src/serial/output_stream.rs:36-37 | the keystream byte at call-local index `i`: byte `i mod 8` of the mixed state (definition; `KeyByteShift` proves it is the source's shift and mask) |
| Cipher.Feedback | src/serial/output_stream.rs:40-42 | the second half of a step: the mixed state plus the ciphertext byte times `0xECD96C09EEFC5F6D`, wrapping (definition) |
| Cipher.Encrypt | src/serial/output_stream.rs:33-43 | the ciphertext of one encrypting call; as long as the plaintext (its byte law is `EncryptAt`, its inverse `DecryptEncrypt`) |
| Cipher.Decrypt | src/serial/input_stream.rs:33-43 | the plaintext of one decrypting call; as long as the ciphertext (its byte law is `DecryptAt`, its inverse `EncryptDecrypt`) |
| Cipher.KeyByteShift | src/serial/output_stream.rs:36-37 | the keystream byte is the mixed state shifted right by `(i & 7) << 3` bits and masked with `0xFF` |
| Cipher.EmptyRun | src/serial/output_stream.rs:33 | empty input produces no bytes and leaves the state unchanged |
| Cipher.AbsorbIsMixFeedback | src/serial/output_stream.rs:34-42 | the cipher's mix then feedback is the key-derivation step, which is why a stream's state is `Keys.Fold` over the ciphertext it has processed |
| Cipher.FoldSnoc | src/serial/input_stream.rs:34-40 | helper (unfolds the definitions for the loop proofs): one more ciphertext byte is one more mix and feedback of the state |
| Cipher.EncryptSnoc | src/serial/output_stream.rs:33-43 | helper (unfolds the definitions for the loop proofs): encrypting one more byte appends plaintext plus the keystream byte at call-local index `i` |
| Cipher.DecryptSnoc | src/serial/input_stream.rs:33-43 | helper (unfolds the definitions for the loop proofs): decrypting one more byte appends ciphertext minus the same keystream byte |
| Cipher.EncryptPrefix | src/serial/output_stream.rs:33-43 | encryption is online: a ciphertext prefix depends only on the same plaintext prefix |
| Cipher.DecryptPrefix | src/serial/input_stream.rs:33-43 | decryption is online in the same way |
| Cipher.EncryptAt | src/serial/output_stream.rs:33-43 | ciphertext byte `i` is plaintext byte `i` plus byte `i mod 8` of the state mixed after the earlier ciphertext |
| Cipher.DecryptAt | src/serial/input_stream.rs:33-43 | plaintext byte `i` is ciphertext byte `i` minus that same keystream byte |
| Cipher.DecryptEncrypt | src/serial/input_stream.rs:33-43 | decrypting a call's ciphertext from the same starting state restores the plaintext |
| Cipher.EncryptDecrypt | src/serial/output_stream.rs:33-43 | every ciphertext is the encryption of its decryption (the transform is a bijection) |
| Cipher.EncryptInjective | src/serial/output_stream.rs:33-43 | for a fixed state, two plaintexts encrypt alike exactly when they are equal |
| Fs.Min | src/serial/output_stream.rs:44 | the count a write takes is the smaller of the two bounds and equals one of them |
| Fs.Disk.Open | src/user_session.rs:71-74 | opening fails exactly when the path is missing; otherwise it yields the file's bytes |
| Fs.Disk.Create | src/serial/output_stream.rs:24 | creation fails exactly on refused paths and then changes nothing; otherwise the file is empty and its old bytes are freed |
| Fs.Disk.Write | src/serial/output_stream.rs:44 | appends the longest prefix that fits and reports its length |
| OutputStreams.EncryptInPlace | src/serial/output_stream.rs:34-42 | one loop iteration extends the encrypted prefix of the buffer by one byte and leaves the rest alone |
| OutputStreams.OutputStream.Init | src/serial/output_stream.rs:25 | the stream's state starts as the key's word |
| OutputStreams.OutputStream.New | src/serial/output_stream.rs:23-26 | `None` exactly on a refused path, with nothing changed; otherwise the file is truncated and the state is the key |
| OutputStreams.OutputStream.EncryptBuffer | src/serial/output_stream.rs:33-43 | the buffer becomes `Encrypt` of its old contents, and the state is the fold over that ciphertext |
| OutputStreams.OutputStream.WriteRaw | src/serial/output_stream.rs:31-45 | the file gains the prefix of the ciphertext that fits; the state advances over the whole ciphertext, even bytes the file refused |
| InputStreams.DecryptInPlace | src/serial/input_stream.rs:34-42 | one loop iteration extends the decrypted prefix by one byte and feeds back the ciphertext byte it overwrote |
| InputStreams.InputStream.Init | src/serial/input_stream.rs:25 | a stream at the start of the file, with the state equal to the key's word |
| InputStreams.InputStream.New | src/serial/input_stream.rs:23-26 | `None` exactly when the file is missing; otherwise at position 0 with the state equal to the key |
| InputStreams.InputStream.DecryptBuffer | src/serial/input_stream.rs:33-43 | the first `count` bytes become `Decrypt` of themselves, the rest is unchanged, and the state is the fold over the ciphertext |
| InputStreams.InputStream.ReadRaw | src/serial/input_stream.rs:31-45 | reads `min(len, remaining)` bytes, decrypts them and leaves the rest of the buffer alone; the state stays the seed folded over all ciphertext read |
| InputStreams.ReadStream | src/serial/input_stream.rs:58-65 | the zeroed buffer holds the decrypted bytes read, then zeros; the count and position agree |
| Records.KeyCipher | src/serial/key.rs:35-42 | a key record is 8 ciphertext bytes |
| Records.DecodeKey | src/serial/key.rs:44-52 | a key read fails exactly when fewer than 8 bytes remain; otherwise it is the word of the 8 decrypted bytes |
| Records.DecodeKeyCipher | src/serial/key.rs:35-52 | a key record reads back as the key, whatever follows it |
| Records.KeyCipherDecodeKey | src/serial/key.rs:44-52 | any 8 bytes decode to a key whose record is exactly those bytes |
| Records.SerializeKey | src/serial/key.rs:35-42 | succeeds exactly when the disk had room for 8 bytes; the file gains the fitting prefix of the key record |
| Records.DeserializeKey | src/serial/key.rs:44-52 | yields the key decoded from the next 8 bytes, `None` when fewer remain; consumes `min(8, remaining)` |
| Records.EncryptEach | src/serial/serializable.rs:24-27 | per-byte records preserve length |
| Records.DecryptEach | src/serial/serializable.rs:36-41 | the bytes read back with one raw call per byte; as many as the ciphertext bytes |
| Records.EncryptEachPrefix | src/serial/serializable.rs:24-27 | per-byte encryption is online |
| Records.DecryptEachEncryptEach | src/serial/serializable.rs:36-41 | byte records read back one by one from the same state restore the bytes |
| Records.StringCipher | src/serial/serializable.rs:21-29 | a string record is 8 bytes longer than the string |
| Records.DecodeString | src/serial/serializable.rs:31-43 | a string read fails when fewer than 8 bytes remain; a success never yields more bytes than follow the prefix |
| Records.StringConsumed | src/serial/serializable.rs:31-43 | a string read never consumes more than what is left |
| Records.DecodeStringCipher | src/serial/serializable.rs:21-43 | a string record reads back as the string and consumes exactly the record, whatever follows |
| Records.DecodeStringTruncated | src/serial/serializable.rs:31-43 | a string record cut short anywhere does not read back |
| Records.EmptyStringCipher | src/serial/serializable.rs:21-29 | the empty string is its length prefix alone and reads back as empty |
| Records.StringProcessed | src/serial/serializable.rs:22-27 | the state advances over the prefix and the byte records up to the first refused one, never beyond room + 1 |
| Records.StringCipherPrefix | src/serial/serializable.rs:22-27 | a record prefix is the length prefix followed by the first `i` byte records |
| Records.EncryptEachStep | src/serial/serializable.rs:24-27 | byte record `i` is one raw call over byte `i` from the state after the earlier records |
| Records.WriteBytes | src/serial/serializable.rs:24-27 | succeeds exactly when every byte fitted; the file gains the fitting byte records; the state covers them plus the first refused one |
| Records.SerializeString | src/serial/serializable.rs:21-29 | succeeds exactly when the whole record fitted; the file gains the fitting prefix of the record; the state advances as `StringProcessed` says |
| Records.DecryptEachStep | src/serial/serializable.rs:36-41 | reading one more byte record is one raw read from the state after the earlier ones |
| Records.ReadByteStep | src/serial/serializable.rs:38-40 | one more one-byte read extends the decrypted bytes and the state by one record |
| Records.ReadBytes | src/serial/serializable.rs:36-41 | `len` per-byte reads give the decrypted bytes, or `None` when fewer than `len` remain; consumes `min(len, remaining)` |
| Records.StringReadTail | src/serial/serializable.rs:33-41 | after a whole prefix, decoding and consumption are determined by the per-byte reads |
| Records.DeserializeString | src/serial/serializable.rs:31-43 | yields `DecodeString` of what remains and consumes `StringConsumed`; the state stays the fold over what was read |
| Records.RecordCipher | src/serial/output_stream.rs:52-54 | every record is at least 8 bytes long |
| Records.Decode | src/serial/input_stream.rs:52-54 | a successful read yields a value of the requested kind |
| Records.Consumed | src/serial/input_stream.rs:52-54 | a read consumes at most what remains; a key read takes 8 bytes unless fewer remain |
| Records.RecordProcessed | src/serial/output_stream.rs:52-54 | a write advances the state over at least 8 bytes: exactly 8 for a key, at most the whole record for a string |
| Records.DecodeRecordCipher | src/serial/input_stream.rs:52-54 | a record read as its own kind gives back the written value and consumes exactly the record |
| Records.Write | src/serial/output_stream.rs:52-54 | succeeds exactly when the record fitted; the file gains the fitting prefix of the record; the state advances over the record's ciphertext up to `RecordProcessed` |
| Records.Read | src/serial/input_stream.rs:52-54 | yields `Decode` of what remains, for the requested kind; consumes `Consumed` bytes, and the state advances over exactly those |
| Sessions.UserPath | src/user_session.rs:44 | the path is `users/`, then the name, then `.data` |
| Sessions.UserPathInjective | src/user_session.rs:68 | distinct users have distinct path strings, and conversely (paths are not resolved; see Left out) |
| Sessions.Header | src/user_session.rs:76-78 | the header is 8 bytes long |
| Sessions.HeaderDecodes | src/user_session.rs:95-97 | a header read with its own key gives that key, whatever follows |
| Sessions.Login | src/user_session.rs:43-60 | a login that succeeds is the session of the name and the password's key |
| Sessions.LoginHeader | src/user_session.rs:43-60 | a login succeeds exactly when the file exists and starts with the header of the password's key |
| Sessions.LoginMissing | src/user_session.rs:47 | with no file, no login |
| Sessions.Authenticate | src/user_session.rs:43-60 | the answer is `Login` on the current files |
| Sessions.Create | src/user_session.rs:67-84 | an existing or refused path gives `None` with nothing changed; otherwise the file holds the fitting prefix of the header, and a session is returned exactly when all 8 bytes fitted |
| Sessions.HeaderAgrees | src/user_session.rs:97 | the `assert_eq!` condition: if the header can be read with the session key, it decrypts to that key |
| Sessions.LoginAgrees | src/user_session.rs:97 | a session obtained by logging in passes the `assert_eq!` of `get_istream` |
| Sessions.HeaderWrittenAgrees | src/user_session.rs:97 | a file holding a partial header, or the full header followed by anything, passes that check |
| Sessions.GetIStream | src/user_session.rs:90-99 | `None` exactly when the file is missing or shorter than a header; otherwise a stream at position 8 whose state is the key folded over the header |
| Sessions.GetOStream | src/user_session.rs:105-112 | `None` with nothing changed on a refused path; otherwise the file holds the fitting prefix of the header; succeeds exactly when all of it fitted, leaving the state as the key folded over the header |
| Sessions.PayloadRoundTrip | src/user_session.rs:90-112 | a file made of the header, a string record written after it, then anything, logs the owner in and reads back the string |
| Scenarios.RawRoundTrip | src/serial/input_stream.rs:31-45 | a raw read of a raw write's output, from fresh streams with the same key and the same length, restores the input, and both streams end in the same state |
| Scenarios.StreamRoundTrip | src/tests.rs:20-39 | any value written through a fresh stream reads back through a fresh stream with the same key (also `test_stream3`, src/tests.rs:65-84) |
| Scenarios.CreateThenAuthenticate | src/tests.rs:86-109 | no login before creation; creation and the next login yield the same session; a second creation is refused |
| Scenarios.SessionRoundTrip | src/user_session.rs:90-112 | a payload written through `get_ostream` reads back through `get_istream` |

## Left out

- Sessions.GetIStream: the `assert_eq!` panic is not modelled as a failure; instead the method requires `HeaderAgrees` (the file's header, if readable, decrypts to the session key). `LoginAgrees` and `HeaderWrittenAgrees` show that sessions from `authenticate`, `create` and `get_ostream` meet it.
- Records.DeserializeString: yields the bytes. The `String::from_utf8(..).unwrap()` UTF-8 check and its panic are not modelled; strings are byte sequences throughout.
- `Vec::with_capacity(len)` allocation failure for a huge decoded length is not modelled; the model reads byte by byte until the file ends.
- Passwords are byte sequences (`str::bytes`), and usernames are Dafny strings joined into the path; no UTF-8 encoding is modelled.
- Sessions.UserPathInjective: path resolution is not modelled. The disk keys raw path strings, so `.` and `..` segments, separators inside the name and case-insensitive filesystems are not seen. On a real filesystem two different names can reach one file ("alice" and "./alice"), or a file outside `users/` ("../x").
- The native byte order is fixed to little-endian and `usize` to 64 bits. On other hosts the `transmute`d images differ.
- I/O errors other than a full disk or a refused `File::create` are not modelled. A write error that `unwrap_or(0)` turns into 0 is the same as a full disk. Partial `read`s shorter than the remaining file are not modelled; a read returns everything requested that is present.
- InputStreams.InputStream: the file's bytes are taken when the stream is opened. Writes to the same path while a reader is open are not seen, and no concurrency or real filesystem is modelled.
- The generic `write::<T>`/`read::<T>` are modelled as dispatch over the two serialisable types (`Records.Value`, `Records.Kind`); the `Serializable` trait is not modelled as an open set of types.
- No cryptographic strength is claimed. `test_stream2` (a wrong key reads a different key) is a property of particular constants and is not proved.
- The cleanup `remove_file` calls of the tests, `src/app.rs`, `src/main.rs` and `src/serial/mod.rs` are not part of this model. `src/serial/user_session.rs` duplicates `src/user_session.rs` but is never compiled (`src/serial/mod.rs:43-54` does not declare it), so it is not part of this model.
