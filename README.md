# Chunked AES-GCM file container: a Dafny model

This project models the core of a small Go file-encryption tool: the streaming container written
by `EncryptStream` and read back by `DecryptStream`, the counter that gives each chunk its own
nonce, and the two front ends' rules for naming their output (the `encrypt`/`decrypt` command
line and the `/encrypt`/`/decrypt` HTTP handlers).

The container is `salt(16) ‖ baseNonce(12) ‖ frame*`. Each frame is a 4-byte big-endian length
followed by that many bytes of AES-GCM output: one chunk of at most 64 KiB plus its 16-byte tag.
The k-th chunk is sealed under the base nonce incremented k times. The key is PBKDF2-HMAC-SHA-256
of the password and salt (section 5.2 of RFC 8018, 100000 iterations, 32 bytes).

Modules, one per concern:

- `Bytes` (`bytes.dfy`): bytes, big-endian values, `PutUint32`/`Uint32`.
- `Nonce` (`nonce.dfy`): `incrementNonce` as an in-place loop over an `array`, proved against the
  function `Incremented`; the nonce sequence `NonceAt` and its uniqueness.
- `Primitives` (`primitives.dfy`): the format constants. AES-GCM and PBKDF2 are not implemented.
  They are function-valued parameters (`Aead`, `Kdf`). What the container relies on about AES-GCM
  is the predicate `AeadLaws`: opening what was sealed under the same key and nonce gives the
  plaintext back, and sealing adds exactly 16 bytes.
- `Container` (`container.dfy`): readers, outcomes, frames. It also holds the specification
  functions `EncryptSpec`/`EncryptLoop` and `DecryptSpec`/`DecryptLoop`/`DecryptTurn`, which
  give, for every input, the bytes written, the progress calls made and the error returned.
- `CryptoStream` (`stream.dfy`): `EncryptStream` and `DecryptStream` as methods. Each has a
  `while` loop that advances the nonce in place in a 12-byte array. Each is proved equal to its
  specification function.
- `EncryptProps` and `DecryptProps` (`encrypt_props.dfy`, `decrypt_props.dfy`): what the
  specification functions mean. This covers the frame layout, the nonce of each frame, the length
  bound, the error and termination rules of the decoder, progress monotonicity, and the round trip.
- `Cli` (`cli.dfy`) and `Server` (`server.dfy`): output-name rules, the flag check, and the
  checks the handlers make before streaming.

The model's conventions for the parts of the environment it cannot see:

- Encrypt reader. It is a script of `Read` results, each some bytes and an optional error. Past
  the end of the script it reports `(0, io.EOF)`.
- Decrypt reader. It is a byte sequence plus the error it reports once exhausted. A reader's
  error is taken to be reported again on every later read, so an error that arrives in the same
  `Read` as the bytes completing an `io.ReadFull` buffer is seen by the next `io.ReadFull`.
- Output writer. It is an appended byte sequence that never fails.
- Progress callback. It is a flag (nil or not) plus the sequence of calls it receives.
- Random salt and base nonce. They are inputs (`Draw`), and a draw may fail.

Behaviour of the code a reader may not expect; the model reproduces it:

- Progress position. Decrypt reports the number of container bytes read so far, header included,
  not the plaintext bytes. Its last call reports the container length
  (`DecryptProps.RoundTrip`).
- Short header. A header shorter than 28 bytes ends decryption with the error `io.ReadFull`
  returns for the salt or the nonce: `io.EOF` when the input ends exactly before the salt or exactly before
  the nonce, `io.ErrUnexpectedEOF` otherwise (`DecryptProps.DecryptShortHeader`).
- Short body. A frame body that cannot be read whole gives "unexpected EOF while reading chunk".
  This happens whatever the reader's own error was.
- Input ending after a length prefix. Input that ends 1 to 3 bytes into a length prefix gives
  `io.ErrUnexpectedEOF`, returned as it is.
- Truncation at a frame boundary. It is not detected (`DecryptProps.TruncatedAtFrameBoundary`).
- Naming the input ".enc". The command line and the server disagree on it. `decrypt -f .enc`
  derives the empty output path (main.go:88), which `DecryptFile` then fails to create, while
  the server names the download ".enc.dec" (`Server.DownloadNameMatchesCli`).

## Model

| member | source | states |
|---|---|---|
| Bytes.Uint32 | pkg/cryptolib/cryptolib.go:155 | a length prefix decodes to a value below 2^32 |
| Bytes.Uint32BigEndian | pkg/cryptolib/cryptolib.go:155 | the decoded prefix is the big-endian value of its four bytes |
| Bytes.PutUint32RoundTrip | pkg/cryptolib/cryptolib.go:88 | an encoded length prefix is 4 bytes and decodes back to the length |
| Nonce.Incremented | pkg/cryptolib/cryptolib.go:29-37 | incrementing keeps the nonce length |
| Nonce.IncrementedValue | pkg/cryptolib/cryptolib.go:29-37 | after incrementing, the big-endian value is (old value + 1) mod 256^len |
| Nonce.IncrementedAt | pkg/cryptolib/cryptolib.go:31-35 | byte k gains one (mod 256) exactly when every byte after it is 0xFF, otherwise it is unchanged; so only the trailing 0xFF run and the byte before it change |
| Nonce.IncrementedWraps | pkg/cryptolib/cryptolib.go:31-35 | an all-0xFF nonce wraps to all zeros, of value 0, without error |
| Nonce.IncrementedCarry | pkg/cryptolib/cryptolib.go:31-35 | with a trailing 0xFF run from j on, the increment is the head's increment followed by zeros (the carry loop's invariant) |
| Nonce.IncrementNonce | pkg/cryptolib/cryptolib.go:30-37 | the in-place carry loop leaves the array holding the incremented nonce |
| Nonce.NonceAt | pkg/cryptolib/cryptolib.go:97 | the k-th chunk nonce has the base nonce's length |
| Nonce.NonceAtShift | pkg/cryptolib/cryptolib.go:174 | starting one increment later shifts the whole nonce sequence by one (decrypt advances in lockstep) |
| Nonce.NonceAtValue | pkg/cryptolib/cryptolib.go:97 | the k-th nonce's value is (base + k) mod 256^len |
| Nonce.NonceAtDistinct | pkg/cryptolib/cryptolib.go:86 | chunk nonces j < k below 256^len (2^96 for 12 bytes) are distinct |
| Container.DecryptTurn | pkg/cryptolib/cryptolib.go:148-170 | a frame that opens moves the reader strictly forward, and never past the input |
| EncryptProps.ChunksDelivered | pkg/cryptolib/cryptolib.go:84-86 | the chunks are exactly the delivered bytes cut at read boundaries, none empty, each at most 64 KiB under the io.Reader contract |
| EncryptProps.SealFramesAppend | pkg/cryptolib/cryptolib.go:86-97 | the frames of a + b are those of a, then those of b from the nonce advanced once per chunk of a |
| EncryptProps.SealFramesAt | pkg/cryptolib/cryptolib.go:86-97 | the k-th frame seals the k-th chunk under the base nonce incremented k times, after the frames of the chunks before it |
| EncryptProps.FrameLengthField | pkg/cryptolib/cryptolib.go:86-95 | a frame of a chunk of at most 64 KiB is 4 + len + 16 bytes, and its prefix declares len + 16 without truncation, at most 65552 |
| EncryptProps.EncryptLoopFrames | pkg/cryptolib/cryptolib.go:83-109 | the read loop writes the frames of the chunks, makes one progress call per chunk, and returns the first non-EOF read error met before io.EOF |
| EncryptProps.EncryptLayout | pkg/cryptolib/cryptolib.go:44-111 | output is salt ‖ base nonce ‖ frames of the chunks in read order |
| EncryptProps.EncryptEmptyInput | pkg/cryptolib/cryptolib.go:46-85 | a reader delivering no bytes yields only the 28-byte header and no progress call |
| EncryptProps.EncryptProgress | pkg/cryptolib/cryptolib.go:98-101 | one call per chunk with totalBytes unchanged; processed is the cumulative plaintext, strictly increasing, ending at the plaintext length |
| DecryptProps.DecryptShortHeader | pkg/cryptolib/cryptolib.go:117-136 | a header under 28 bytes writes nothing and returns io.EOF or io.ErrUnexpectedEOF exactly as io.ReadFull decides, or the reader's own error |
| DecryptProps.DecryptLoopRules | pkg/cryptolib/cryptolib.go:148-170 | clean end only at a length boundary; a 1-3 byte prefix, a length above 65552 (whatever follows), a short body and an Open failure each end the loop with their error |
| DecryptProps.DecryptOkOnlyWellFramed | pkg/cryptolib/cryptolib.go:147-153 | the loop succeeds only on input that ends with io.EOF exactly at a frame boundary, every length within 65552 |
| DecryptProps.DecryptProgress | pkg/cryptolib/cryptolib.go:174-177 | decrypt progress calls report strictly increasing positions within the input, totalBytes unchanged |
| DecryptProps.DecryptFrame | pkg/cryptolib/cryptolib.go:155-170 | a frame sealed under the current nonce passes the length check (65552 included), is read whole and opens to its chunk |
| DecryptProps.SealFramesLength | pkg/cryptolib/cryptolib.go:88-95 | sealed frames take 4 + len + 16 bytes per chunk |
| DecryptProps.DecryptEventsAt | pkg/cryptolib/cryptolib.go:154-176 | the k-th decrypt progress call reports the position just past the k-th frame |
| DecryptProps.SealedFramesDecrypted | pkg/cryptolib/cryptolib.go:147-178 | frames sealed from the current nonce are decrypted in order to their chunks, and the loop then continues past them with the nonce advanced once per chunk |
| DecryptProps.SealedFramesFrom | pkg/cryptolib/cryptolib.go:147-178 | the induction behind SealedFramesDecrypted, with the end position and nonce named |
| DecryptProps.DecryptKeepsEarlierPlaintext | pkg/cryptolib/cryptolib.go:115-178 | with an intact header and intact first frames, the plaintext of those frames is written before whatever the rest of the input causes |
| DecryptProps.DecryptContainer | pkg/cryptolib/cryptolib.go:115-180 | a header plus the frames of some chunks decrypts to the chunks in order without error |
| DecryptProps.DecryptEventsProgress | pkg/cryptolib/cryptolib.go:174-177 | over accepted frames, one call per frame, strictly increasing, the last just past the last frame |
| DecryptProps.RoundTrip | pkg/cryptolib/cryptolib.go:115-180 | decrypting encrypt's output with the same password writes exactly the delivered bytes and succeeds; the last progress call reports the container length 28 + Σ(4 + len + 16) |
| DecryptProps.EncryptedPrefix | pkg/cryptolib/cryptolib.go:83-109 | the header and first j frames of encrypt's output are the container of the first j chunks |
| DecryptProps.TruncatedAtFrameBoundary | pkg/cryptolib/cryptolib.go:147-151 | encrypt's output cut after any frame decrypts without error to the first chunks only |
| CryptoStream.CopyNonce | pkg/cryptolib/cryptolib.go:77-78 | a fresh 12-byte buffer holds the base nonce |
| CryptoStream.EncryptStream | pkg/cryptolib/cryptolib.go:44-111 | writes, reports and returns exactly what EncryptSpec says |
| CryptoStream.EncryptChunks | pkg/cryptolib/cryptolib.go:83-109 | the read loop with the nonce advanced in place equals EncryptLoop from the base nonce |
| CryptoStream.SealChunk | pkg/cryptolib/cryptolib.go:85-101 | one read's frame, progress call, nonce and processed count are those of SealRead |
| CryptoStream.DecryptStream | pkg/cryptolib/cryptolib.go:115-179 | writes, reports and returns exactly what DecryptSpec says |
| CryptoStream.ReadFrame | pkg/cryptolib/cryptolib.go:148-170 | one frame's length read, limit check, body read and Open give DecryptTurn |
| CryptoStream.DecryptChunks | pkg/cryptolib/cryptolib.go:147-179 | the frame loop with the nonce advanced in place equals DecryptLoop from the base nonce |
| Cli.TrimSuffix | main.go:88 | a trailing suffix is removed exactly; otherwise the string is unchanged |
| Cli.DecryptOutputPathRule | main.go:88-91 | one trailing ".enc" is dropped; otherwise ".dec" is appended |
| Cli.OutputPathRoundTrip | main.go:63-91 | the decrypt path of the encrypt path is the original path, for every path including "" |
| Cli.DecryptOutputPathFresh | main.go:88-91 | the decrypt output path never equals the input path |
| Cli.BareExtensionDecryptsToEmpty | main.go:88 | the path ".enc" decrypts to the empty path |
| Cli.RunEncrypt | main.go:56-63 | encryption runs exactly when -f and -p are both non-empty, from the given file to that path plus ".enc" |
| Cli.RunDecrypt | main.go:81-91 | decryption runs exactly when -f and -p are both non-empty, from the given file to its decrypt output path |
| Cli.CommandRoundTrip | main.go:63-91 | decrypting encrypt's output file writes back to the original path; neither command overwrites its input |
| Server.DecryptDownloadName | server.go:105-110 | a name longer than 4 ending in ".enc" loses exactly those 4 characters; every other name, "" and ".enc" included, gets ".dec"; the result is never empty |
| Server.DownloadNameRoundTrip | server.go:64-110 | the decrypt name of the encrypt download name n + ".enc" is n exactly when n is non-empty |
| Server.DownloadNameMatchesCli | server.go:106 | the server and command-line decrypt names agree on every name except ".enc" |
| Server.DecryptDownloadNameFresh | server.go:105-110 | the decrypt download name never equals the uploaded name |
| Server.Refusal | server.go:32-62 | a request passes exactly when it is a POST with a parsed form, a file part and a non-empty password; non-POST gets 405, the rest 400 |
| Server.HandleEncrypt | server.go:31-73 | EncryptStream runs (with the upload's size and no progress callback) exactly when no check refuses the request, as a download named name + ".enc" |
| Server.HandleDecrypt | server.go:76-118 | DecryptStream runs (with the upload's size and no progress callback) exactly when no check refuses the request, as a download named by the decrypt rule |
| Server.ServerRoundTrip | server.go:64-115 | uploading an /encrypt download back to /decrypt with the same password returns the original name and exactly the original bytes |

## Left out

- AES-GCM and PBKDF2 internals. They are foreign library calls and appear as parameters. Only the two AEAD laws in `AeadLaws` are assumed, by the lemmas that require them.
- Rejection of a wrong password or of tampered data. This is a cryptographic property of AES-GCM `Open`, not of this code. The model only states that an `Open` failure stops the stream with an error (`DecryptProps.DecryptLoopRules`).
- Errors from `aes.NewCipher` and `cipher.NewGCM`. With a 32-byte key these never fail, so the model has no such error path.
- `crypto/rand`. The salt and base-nonce draws are inputs.
- Write errors. The output writer is an infallible append, so the error returns after `output.Write` are not modelled.
- CryptoStream.EncryptChunks: the `int64` counter `processedBytes` is unbounded in the model, because overflow needs 2^63 bytes.
- CryptoStream.DecryptChunks: the `int64` counter `processedBytes` is unbounded in the model, for the same reason.
- `EncryptFile`, `DecryptFile`. They only open, stat and create files. They pass the file size as `totalBytes`, which is a plain parameter here.
- The test file. It does file I/O.
- `printProgress`. It does floating-point formatting. It also divides by `total` even when that is 0.
- Order of output and progress. A run keeps the written bytes and the progress calls as two
  separate sequences, so the model does not capture that each progress call comes after its
  chunk's bytes were written.
- Errors delivered with data. `io.ReadFull` drops an error that arrives in the same `Read` as the
  bytes filling its buffer; the decrypt reader model reports such an error again at the next
  `io.ReadFull` instead, so a reader that delivers a frame's last bytes with an error and then
  `(0, io.EOF)` ends in that error here but without error in the code.
- CLI glue: flag parsing, `os.Exit`, usage text and message wording. `RunEncrypt` and `RunDecrypt` take the flag values.
- HTTP plumbing: `runServe`, the embedded page, response headers and the 10 MB multipart limit. The outcome of `ParseMultipartForm` and `FormFile` is a field of the request. A stream error after the download has started is only logged; the response stays a download.
- Character encoding. Strings are sequences of characters. Passwords are byte sequences, so a Go string's UTF-8 bytes are taken as given.
