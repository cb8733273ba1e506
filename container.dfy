/** The streaming container `salt(16) ‖ baseNonce(12) ‖ frame*`, where a frame is a 4-byte
    big-endian length followed by that many sealed bytes, and the specification of what
    `EncryptStream` and `DecryptStream` write, report and return. */
module Container {
  import opened Bytes
  import opened Nonce
  import opened Primitives

  /** The error values the stream code compares against or returns: `io.EOF`,
      `io.ErrUnexpectedEOF` and any other error a reader or the random source reports. */
  datatype IoError = EOF | UnexpectedEOF | Failure(code: nat)

  /** One call `n, err := input.Read(buf)`: the bytes delivered and the error, if any. */
  datatype ReadResult = ReadResult(data: seq<byte>, err: Option<IoError>)

  /** One `io.ReadFull(rand.Reader, buf)` for the salt or the base nonce. */
  datatype Draw = Drawn(bytes: seq<byte>) | DrawFailed(err: IoError)

  /** A reader as `io.ReadFull` sees it: the bytes it delivers, then the error it reports once
      they are exhausted (`EOF` for a clean end). */
  datatype Source = Source(bytes: seq<byte>, end: IoError)

  /** The result of `io.ReadFull(input, buf)` with a buffer of some length. */
  datatype Fill = Filled(bytes: seq<byte>) | Short(err: IoError)

  /** What a stream operation returns besides its output: `nil` or an error. */
  datatype StreamError =
    | Io(err: IoError)                          // propagated from a reader or the random source
    | ChunkTooLarge(declared: nat, limit: nat)  // "chunk too large: %d > %d"
    | ChunkTruncated                            // "unexpected EOF while reading chunk"
    | OpenFailed                                // authentication failed in `aesGCM.Open`
  datatype Outcome = Ok | Err(error: StreamError)

  /** One call `onProgress(bytesProcessed, totalBytes)`. */
  datatype Progress = Progress(processed: int, total: int)

  /** Everything one stream operation does that a caller can observe: the bytes appended to the
      output writer, the progress calls in order, and the returned error. */
  datatype Run = Run(written: seq<byte>, events: seq<Progress>, outcome: Outcome)

  /** The io.Reader contract for a read into the 64 KiB buffer: at most `ChunkSize` bytes. */
  ghost predicate ReaderContract(input: seq<ReadResult>)
  {
    forall r :: r in input ==> |r.data| <= ChunkSize
  }

  /** The concatenation of a sequence of byte strings. */
  function Concat(chunks: seq<seq<byte>>): seq<byte>
  {
    if chunks == [] then [] else chunks[0] + Concat(chunks[1..])
  }

  /** The plaintext chunks of an encryption: the data of every non-empty read, in read order, up
      to and including the first read that reports an error. Past the end of `input` the reader
      reports `(0, io.EOF)`. */
  function Chunks(input: seq<ReadResult>): seq<seq<byte>>
  {
    if input == [] then []
    else
      (if |input[0].data| > 0 then [input[0].data] else [])
      + (if input[0].err.Some? then [] else Chunks(input[1..]))
  }

  /** The error that ends the encryption loop: `None` when the reader reports `io.EOF` first,
      otherwise the first other error it reports. */
  function ReadEnd(input: seq<ReadResult>): Option<IoError>
  {
    if input == [] then None
    else if input[0].err == Some(EOF) then None
    else if input[0].err.Some? then input[0].err
    else ReadEnd(input[1..])
  }

  /** One frame: `PutUint32(uint32(len(sealed)))` followed by the sealed bytes. */
  function Frame(sealed: seq<byte>): seq<byte>
  {
    PutUint32(|sealed| % Uint32Limit) + sealed
  }

  /** The frames of `chunks`, the first sealed under `nonce`, each next one under the nonce
      incremented once more. */
  function SealFrames(aead: Aead, key: seq<byte>, nonce: seq<byte>, chunks: seq<seq<byte>>): seq<byte>
    decreases |chunks|
  {
    if chunks == [] then []
    else Frame(aead.seal(key, nonce, chunks[0])) + SealFrames(aead, key, Incremented(nonce), chunks[1..])
  }

  /** The progress calls of an encryption that has already processed `processed` bytes: one per
      chunk, carrying the running plaintext total. */
  function EncryptEvents(chunks: seq<seq<byte>>, processed: int, total: int): seq<Progress>
  {
    if chunks == [] then []
    else [Progress(processed + |chunks[0]|, total)] + EncryptEvents(chunks[1..], processed + |chunks[0]|, total)
  }

  /** Prepends output and progress calls made before `run`. */
  function After(written: seq<byte>, events: seq<Progress>, run: Run): Run
  {
    Run(written + run.written, events + run.events, run.outcome)
  }

  lemma AfterAfter(w1: seq<byte>, e1: seq<Progress>, w2: seq<byte>, e2: seq<Progress>, run: Run)
    ensures After(w1, e1, After(w2, e2, run)) == After(w1 + w2, e1 + e2, run)
  {
    assert w1 + (w2 + run.written) == (w1 + w2) + run.written;
    assert e1 + (e2 + run.events) == (e1 + e2) + run.events;
  }

  lemma AfterNothingBefore(run: Run)
    ensures After([], [], run) == run
  {
    assert [] + run.written == run.written && [] + run.events == run.events;
  }

  lemma AfterNothing(w: seq<byte>, e: seq<Progress>, o: Outcome)
    ensures After(w, e, Run([], [], o)) == Run(w, e, o)
  {
    assert w + [] == w && e + [] == e;
  }

  /** What one read contributes to an encryption: its frame, its progress call, and the nonce
      and plaintext count after it. An empty read contributes nothing. */
  datatype Step = Step(frame: seq<byte>, events: seq<Progress>, nonce: seq<byte>, processed: int)

  function SealRead(aead: Aead, key: seq<byte>, data: seq<byte>, nonce: seq<byte>,
                    processed: int, total: int, report: bool): Step
  {
    if |data| == 0 then Step([], [], nonce, processed)
    else
      Step(Frame(aead.seal(key, nonce, data)),
           if report then [Progress(processed + |data|, total)] else [],
           Incremented(nonce), processed + |data|)
  }

  /** The read loop of `EncryptStream`, `nonce` being the nonce of the next chunk and
      `processed` the plaintext bytes sealed so far. Past the end of `input` the reader reports
      `(0, io.EOF)`. */
  function EncryptLoop(aead: Aead, key: seq<byte>, input: seq<ReadResult>, nonce: seq<byte>,
                       processed: int, total: int, report: bool): Run
    decreases |input|
  {
    if input == [] then Run([], [], Ok)
    else
      var step := SealRead(aead, key, input[0].data, nonce, processed, total, report);
      if input[0].err == Some(EOF) then Run(step.frame, step.events, Ok)
      else if input[0].err.Some? then Run(step.frame, step.events, Err(Io(input[0].err.value)))
      else After(step.frame, step.events, EncryptLoop(aead, key, input[1..], step.nonce, step.processed, total, report))
  }

  /** `EncryptStream(input, output, password, totalBytes, onProgress)` with the random salt and
      base nonce given as `saltDraw` and `nonceDraw`, and `report` saying whether `onProgress`
      is non-nil. */
  function EncryptSpec(aead: Aead, kdf: Kdf, input: seq<ReadResult>, password: seq<byte>, total: int,
                       report: bool, saltDraw: Draw, nonceDraw: Draw): Run
  {
    match saltDraw
    case DrawFailed(e) => Run([], [], Err(Io(e)))
    case Drawn(salt) =>
      match nonceDraw
      case DrawFailed(e) => Run(salt, [], Err(Io(e)))
      case Drawn(base) =>
        After(salt + base, [], EncryptLoop(aead, DeriveKey(kdf, password, salt), input, base, 0, total, report))
  }

  /** `io.ReadFull(input, buf)` with `len(buf) == n`, the reader having delivered `pos` bytes
      already: the next `n` bytes if there are that many; otherwise the reader's own error, or,
      at a clean end, `io.EOF` when no byte was read and `io.ErrUnexpectedEOF` when some were. */
  function ReadFull(src: Source, pos: nat, n: nat): Fill
    requires pos <= |src.bytes|
  {
    if pos + n <= |src.bytes| then Filled(src.bytes[pos..pos + n])
    else if src.end != EOF then Short(src.end)
    else if pos == |src.bytes| then Short(EOF)
    else Short(UnexpectedEOF)
  }

  /** What one turn of the frame loop of `DecryptStream` finds: the end of the loop with its
      result, or a chunk that opened and the reader position just past its frame. */
  datatype Turn = Stop(outcome: Outcome) | Opened(plain: seq<byte>, next: nat)

  /** One turn of the frame loop at reader position `pos` under `nonce`: read a 4-byte length
      (a clean end only when no byte of it is there), reject a length above `ChunkSize +
      TagSize` before reading further, read that many sealed bytes, and open them. */
  function DecryptTurn(aead: Aead, key: seq<byte>, src: Source, pos: nat, nonce: seq<byte>): (t: Turn)
    requires pos <= |src.bytes|
    ensures t.Opened? ==> pos < t.next <= |src.bytes|
  {
    match ReadFull(src, pos, 4)
    case Short(e) => if e == EOF then Stop(Ok) else Stop(Err(Io(e)))
    case Filled(lenBytes) =>
      var chunkLen := Uint32(lenBytes);
      if chunkLen > MaxSealedLen then Stop(Err(ChunkTooLarge(chunkLen, MaxSealedLen)))
      else
        match ReadFull(src, pos + 4, chunkLen)
        case Short(_) => Stop(Err(ChunkTruncated))
        case Filled(sealed) =>
          match aead.open(key, nonce, sealed)
          case None => Stop(Err(OpenFailed))
          case Some(plain) => Opened(plain, pos + 4 + chunkLen)
  }

  /** The frame loop of `DecryptStream`, the reader having delivered `pos` bytes and `nonce`
      being the nonce of the next chunk: each opened chunk is written and reported with the
      position past its frame, and the nonce advances once per chunk. */
  function DecryptLoop(aead: Aead, key: seq<byte>, src: Source, pos: nat, nonce: seq<byte>,
                       total: int, report: bool): Run
    requires pos <= |src.bytes|
    decreases |src.bytes| - pos
  {
    match DecryptTurn(aead, key, src, pos, nonce)
    case Stop(outcome) => Run([], [], outcome)
    case Opened(plain, next) =>
      After(plain, if report then [Progress(next, total)] else [],
            DecryptLoop(aead, key, src, next, Incremented(nonce), total, report))
  }

  /** `DecryptStream(input, output, password, totalBytes, onProgress)`. */
  function DecryptSpec(aead: Aead, kdf: Kdf, src: Source, password: seq<byte>, total: int, report: bool): Run
  {
    match ReadFull(src, 0, SaltSize)
    case Short(e) => Run([], [], Err(Io(e)))
    case Filled(salt) =>
      match ReadFull(src, SaltSize, NonceSize)
      case Short(e) => Run([], [], Err(Io(e)))
      case Filled(base) =>
        DecryptLoop(aead, DeriveKey(kdf, password, salt), src, HeaderSize, base, total, report)
  }
}
