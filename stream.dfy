/** `EncryptStream` and `DecryptStream`: the chunk loops, with the nonce advanced in place in a
    12-byte buffer, the output writer an appended byte sequence and the progress callback a
    sequence of calls. */
module CryptoStream {
  import opened Bytes
  import opened Nonce
  import opened Primitives
  import opened Container

  /** A fresh nonce buffer holding a copy of `nonce`. */
  method CopyNonce(nonce: seq<byte>) returns (buf: array<byte>)
    requires |nonce| == NonceSize
    ensures fresh(buf) && buf[..] == nonce
  {
    buf := new byte[NonceSize];
    forall i | 0 <= i < NonceSize {
      buf[i] := nonce[i];
    }
  }

  /** `EncryptStream`: writes the salt, then the base nonce, then one frame per non-empty read,
      sealing the k-th chunk under the base nonce incremented k times. */
  method EncryptStream(aead: Aead, kdf: Kdf, input: seq<ReadResult>, password: seq<byte>, total: int,
                       report: bool, saltDraw: Draw, nonceDraw: Draw)
    returns (written: seq<byte>, events: seq<Progress>, outcome: Outcome)
    requires saltDraw.Drawn? ==> |saltDraw.bytes| == SaltSize
    requires nonceDraw.Drawn? ==> |nonceDraw.bytes| == NonceSize
    ensures Run(written, events, outcome) == EncryptSpec(aead, kdf, input, password, total, report, saltDraw, nonceDraw)
  {
    written, events := [], [];
    if saltDraw.DrawFailed? {
      outcome := Err(Io(saltDraw.err));
      return;
    }
    var salt := saltDraw.bytes;
    written := written + salt;
    var key := DeriveKey(kdf, password, salt);
    if nonceDraw.DrawFailed? {
      outcome := Err(Io(nonceDraw.err));
      return;
    }
    var nonce := nonceDraw.bytes;
    written := written + nonce;
    var currNonce := CopyNonce(nonce);
    var frames;
    frames, events, outcome := EncryptChunks(aead, key, input, currNonce, total, report);
    written := written + frames;
    assert [] + events == events;
  }

  /** The read loop of `EncryptStream`: for every non-empty read, seal it under `currNonce`,
      write its length and the sealed bytes, advance `currNonce` and report progress; stop at
      `io.EOF` or another read error. */
  method EncryptChunks(aead: Aead, key: seq<byte>, input: seq<ReadResult>, currNonce: array<byte>,
                       total: int, report: bool)
    returns (written: seq<byte>, events: seq<Progress>, outcome: Outcome)
    requires currNonce.Length == NonceSize
    modifies currNonce
    ensures Run(written, events, outcome) == EncryptLoop(aead, key, input, old(currNonce[..]), 0, total, report)
  {
    written, events := [], [];
    var processed := 0;
    var i := 0;
    ghost var spec := EncryptLoop(aead, key, input, currNonce[..], processed, total, report);
    assert input[i..] == input;
    AfterNothingBefore(spec);
    while true
      invariant 0 <= i <= |input|
      invariant After(written, events, EncryptLoop(aead, key, input[i..], currNonce[..], processed, total, report)) == spec
      decreases |input| - i
    {
      var r := if i < |input| then input[i] else ReadResult([], Some(EOF));
      ghost var n0, p0 := currNonce[..], processed;
      var frame, ev;
      frame, ev, processed := SealChunk(aead, key, r.data, currNonce, processed, total, report);
      ghost var step := SealRead(aead, key, r.data, n0, p0, total, report);
      if r.err == Some(EOF) {
        written, events := written + frame, events + ev;
        break;
      }
      if r.err.Some? {
        written, events := written + frame, events + ev;
        outcome := Err(Io(r.err.value));
        return;
      }
      assert input[i..][1..] == input[i + 1..];
      AfterAfter(written, events, step.frame, step.events, EncryptLoop(aead, key, input[i + 1..], step.nonce, step.processed, total, report));
      written, events := written + frame, events + ev;
      i := i + 1;
    }
    outcome := Ok;
  }

  /** One read of `EncryptStream`'s loop: a non-empty read is sealed under `currNonce` and
      written as its frame, `currNonce` advances and `processed` grows by the read's length, with
      one progress call when reporting; an empty read writes and changes nothing. */
  method SealChunk(aead: Aead, key: seq<byte>, data: seq<byte>, currNonce: array<byte>,
                   processed: int, total: int, report: bool)
    returns (frame: seq<byte>, events: seq<Progress>, processedAfter: int)
    requires currNonce.Length == NonceSize
    modifies currNonce
    ensures Step(frame, events, currNonce[..], processedAfter)
         == SealRead(aead, key, data, old(currNonce[..]), processed, total, report)
  {
    frame, events, processedAfter := [], [], processed;
    if |data| > 0 {
      var sealed := aead.seal(key, currNonce[..], data);
      frame := PutUint32(|sealed| % Uint32Limit) + sealed;
      IncrementNonce(currNonce);
      processedAfter := processed + |data|;
      if report {
        events := [Progress(processedAfter, total)];
      }
    }
  }

  /** `DecryptStream`: reads the salt and the base nonce, derives the key, then decrypts frame
      after frame. */
  method DecryptStream(aead: Aead, kdf: Kdf, src: Source, password: seq<byte>, total: int, report: bool)
    returns (written: seq<byte>, events: seq<Progress>, outcome: Outcome)
    ensures Run(written, events, outcome) == DecryptSpec(aead, kdf, src, password, total, report)
  {
    written, events := [], [];
    var saltRead := ReadFull(src, 0, SaltSize);
    if saltRead.Short? {
      outcome := Err(Io(saltRead.err));
      return;
    }
    var salt := saltRead.bytes;
    var key := DeriveKey(kdf, password, salt);
    var nonceRead := ReadFull(src, SaltSize, NonceSize);
    if nonceRead.Short? {
      outcome := Err(Io(nonceRead.err));
      return;
    }
    var currNonce := CopyNonce(nonceRead.bytes);
    written, events, outcome := DecryptChunks(aead, key, src, HeaderSize, currNonce, total, report);
  }

  /** One frame of `DecryptStream`'s loop, the reader having delivered `processed` bytes: read
      a length, reject it above `ChunkSize + TagSize`, read the sealed bytes and open them under
      `nonce`. */
  method ReadFrame(aead: Aead, key: seq<byte>, src: Source, processed: nat, nonce: seq<byte>)
    returns (turn: Turn)
    requires processed <= |src.bytes|
    ensures turn == DecryptTurn(aead, key, src, processed, nonce)
  {
    var maxChunkLen := ChunkSize + TagSize;
    var lenRead := ReadFull(src, processed, 4);
    if lenRead.Short? {
      if lenRead.err == EOF {
        return Stop(Ok);
      }
      return Stop(Err(Io(lenRead.err)));
    }
    var chunkLen := Uint32(lenRead.bytes);
    if chunkLen > maxChunkLen {
      return Stop(Err(ChunkTooLarge(chunkLen, maxChunkLen)));
    }
    var body := ReadFull(src, processed + 4, chunkLen);
    if body.Short? {
      return Stop(Err(ChunkTruncated));
    }
    var plaintext := aead.open(key, nonce, body.bytes);
    if plaintext.None? {
      return Stop(Err(OpenFailed));
    }
    turn := Opened(plaintext.value, processed + 4 + chunkLen);
  }

  /** The frame loop of `DecryptStream`, the reader having delivered `start` bytes: frame after
      frame, write the opened chunk, advance `currNonce` and report progress with the bytes
      delivered so far; stop cleanly only when the input ends exactly where a length would
      start. */
  method DecryptChunks(aead: Aead, key: seq<byte>, src: Source, start: nat, currNonce: array<byte>,
                       total: int, report: bool)
    returns (written: seq<byte>, events: seq<Progress>, outcome: Outcome)
    requires start <= |src.bytes| && currNonce.Length == NonceSize
    modifies currNonce
    ensures Run(written, events, outcome) == DecryptLoop(aead, key, src, start, old(currNonce[..]), total, report)
  {
    written, events := [], [];
    var processed := start;
    ghost var spec := DecryptLoop(aead, key, src, processed, currNonce[..], total, report);
    AfterNothingBefore(spec);

    while true
      invariant processed <= |src.bytes|
      invariant After(written, events, DecryptLoop(aead, key, src, processed, currNonce[..], total, report)) == spec
      decreases |src.bytes| - processed
    {
      var turn := ReadFrame(aead, key, src, processed, currNonce[..]);
      if turn.Stop? {
        AfterNothing(written, events, turn.outcome);
        if turn.outcome == Ok {
          break;
        }
        outcome := turn.outcome;
        return;
      }
      ghost var ev: seq<Progress> := if report then [Progress(turn.next, total)] else [];
      ghost var rest := DecryptLoop(aead, key, src, turn.next, Incremented(currNonce[..]), total, report);
      AfterAfter(written, events, turn.plain, ev, rest);
      written := written + turn.plain;
      IncrementNonce(currNonce);
      processed := turn.next;
      if report {
        events := events + [Progress(processed, total)];
      } else {
        assert events + ev == events;
      }
    }
    outcome := Ok;
  }
}
