/** What `DecryptStream` does with well-formed and malformed input: the error rules of its frame
    loop, the frames it accepts, and the round trip with `EncryptStream`. */
module DecryptProps {
  import opened Bytes
  import opened Nonce
  import opened Primitives
  import opened Container
  import opened EncryptProps

  /** The container bytes taken by the frames of `chunks` once sealed: a length prefix, the
      chunk and its tag for each. */
  function FramedSize(chunks: seq<seq<byte>>): nat
  {
    if chunks == [] then 0 else 4 + |chunks[0]| + TagSize + FramedSize(chunks[1..])
  }

  /** The progress calls of a decryption that meets the frames of `chunks` at reader position
      `pos`: one per frame, carrying the position just past it. */
  function DecryptEvents(chunks: seq<seq<byte>>, pos: int, total: int): seq<Progress>
  {
    if chunks == [] then []
    else
      var next := pos + 4 + |chunks[0]| + TagSize;
      [Progress(next, total)] + DecryptEvents(chunks[1..], next, total)
  }

  /** From `pos` on, `bytes` is a sequence of length-prefixed bodies, each length within the
      limit, ending exactly at the end of `bytes`. */
  ghost predicate WellFramed(bytes: seq<byte>, pos: nat)
    requires pos <= |bytes|
    decreases |bytes| - pos
  {
    pos == |bytes|
    || (pos + 4 <= |bytes|
        && var len := Uint32(bytes[pos..pos + 4]);
           len <= MaxSealedLen && pos + 4 + len <= |bytes| && WellFramed(bytes, pos + 4 + len))
  }

  /** A header shorter than 28 bytes: nothing is written and the error is that of the salt or
      nonce read — `io.EOF` when the input ends exactly before the salt or exactly before the
      nonce, `io.ErrUnexpectedEOF` when it ends inside one of them. */
  lemma DecryptShortHeader(aead: Aead, kdf: Kdf, src: Source, password: seq<byte>, total: int, report: bool)
    requires |src.bytes| < HeaderSize
    ensures DecryptSpec(aead, kdf, src, password, total, report)
         == Run([], [], Err(Io(if src.end != EOF then src.end
                               else if |src.bytes| == 0 || |src.bytes| == SaltSize then EOF
                               else UnexpectedEOF)))
  {
  }

  /** The outcome of one turn of the frame loop at reader position `pos`, by what the input
      holds there: a clean end only at a length boundary; a reader error or
      `io.ErrUnexpectedEOF` for a 1-3 byte length; `ChunkTooLarge` for a length above 65552
      whatever follows it; `ChunkTruncated` for a short body; `OpenFailed` when the body does
      not open under the current nonce. */
  lemma DecryptLoopRules(aead: Aead, key: seq<byte>, src: Source, pos: nat, nonce: seq<byte>,
                         total: int, report: bool)
    requires pos <= |src.bytes|
    ensures var run := DecryptLoop(aead, key, src, pos, nonce, total, report);
      && (pos == |src.bytes| ==> run == Run([], [], if src.end == EOF then Ok else Err(Io(src.end))))
      && (pos < |src.bytes| < pos + 4 ==>
            run == Run([], [], Err(Io(if src.end == EOF then UnexpectedEOF else src.end))))
      && (pos + 4 <= |src.bytes| ==>
            var len := Uint32(src.bytes[pos..pos + 4]);
            && (len > MaxSealedLen ==> run == Run([], [], Err(ChunkTooLarge(len, MaxSealedLen))))
            && (len <= MaxSealedLen && pos + 4 + len > |src.bytes| ==> run == Run([], [], Err(ChunkTruncated)))
            && (len <= MaxSealedLen && pos + 4 + len <= |src.bytes|
                && aead.open(key, nonce, src.bytes[pos + 4..pos + 4 + len]).None? ==>
                  run == Run([], [], Err(OpenFailed))))
  {
  }

  /** The loop succeeds only on input that ends, with `io.EOF`, exactly at a frame boundary. */
  lemma {:induction false} DecryptOkOnlyWellFramed(aead: Aead, key: seq<byte>, src: Source, pos: nat,
                                                   nonce: seq<byte>, total: int, report: bool)
    requires pos <= |src.bytes|
    requires DecryptLoop(aead, key, src, pos, nonce, total, report).outcome == Ok
    ensures src.end == EOF && WellFramed(src.bytes, pos)
    decreases |src.bytes| - pos
  {
    var t := DecryptTurn(aead, key, src, pos, nonce);
    if t.Opened? {
      DecryptOkOnlyWellFramed(aead, key, src, t.next, Incremented(nonce), total, report);
    }
  }

  /** Progress calls that report strictly increasing positions, each above `lo` and at most
      `hi`, all with `totalBytes` equal to `total`. */
  ghost predicate Ascending(ev: seq<Progress>, lo: int, hi: int, total: int)
  {
    && (forall k :: 0 <= k < |ev| ==> lo < ev[k].processed <= hi && ev[k].total == total)
    && (forall j, k :: 0 <= j < k < |ev| ==> ev[j].processed < ev[k].processed)
  }

  /** Decrypt progress: every call reports a reader position past the previous one, within the
      input, and `totalBytes` unchanged. */
  lemma {:induction false} DecryptProgress(aead: Aead, key: seq<byte>, src: Source, pos: nat,
                                           nonce: seq<byte>, total: int, report: bool)
    requires pos <= |src.bytes|
    ensures Ascending(DecryptLoop(aead, key, src, pos, nonce, total, report).events, pos, |src.bytes|, total)
    decreases |src.bytes| - pos
  {
    var t := DecryptTurn(aead, key, src, pos, nonce);
    if t.Opened? {
      var ev0 := if report then [Progress(t.next, total)] else [];
      LoopOpened(aead, key, src, pos, nonce, t.plain, t.next, total, report);
      DecryptProgress(aead, key, src, t.next, Incremented(nonce), total, report);
      AscendingCons(ev0, DecryptLoop(aead, key, src, t.next, Incremented(nonce), total, report).events,
                    pos, t.next, |src.bytes|, total);
    }
  }

  lemma AscendingCons(ev0: seq<Progress>, rest: seq<Progress>, lo: int, next: int, hi: int, total: int)
    requires lo < next <= hi && Ascending(rest, next, hi, total)
    requires ev0 == [] || ev0 == [Progress(next, total)]
    ensures Ascending(ev0 + rest, lo, hi, total)
  {
    var ev := ev0 + rest;
    assert forall k :: |ev0| <= k < |ev| ==> ev[k] == rest[k - |ev0|];
  }

  /** A frame sealed under the current nonce is accepted: its length passes the limit (a full
      64 KiB chunk gives the largest accepted length, 65552), its body is read whole, and it
      opens to the chunk that was sealed; the next turn starts just past it. */
  lemma DecryptFrame(aead: Aead, key: seq<byte>, src: Source, pos: nat, nonce: seq<byte>, c: seq<byte>, next: nat)
    requires AeadLaws(aead) && |nonce| == NonceSize && |c| <= ChunkSize && next == pos + 4 + |c| + TagSize
    requires var f := Frame(aead.seal(key, nonce, c));
      pos + |f| <= |src.bytes| && src.bytes[pos..pos + |f|] == f
    ensures DecryptTurn(aead, key, src, pos, nonce) == Opened(c, next)
  {
    var sealed := aead.seal(key, nonce, c);
    var f := Frame(sealed);
    FrameLengthField(aead, key, nonce, c);
    assert src.bytes[pos..pos + 4] == f[..4];
    assert src.bytes[pos + 4..pos + |f|] == f[4..] == sealed;
  }

  /** Sealed frames take 4 + len + 16 bytes per chunk. */
  lemma {:induction false} SealFramesLength(aead: Aead, key: seq<byte>, nonce: seq<byte>, chunks: seq<seq<byte>>)
    requires AeadLaws(aead) && |nonce| == NonceSize
    ensures |SealFrames(aead, key, nonce, chunks)| == FramedSize(chunks)
    decreases |chunks|
  {
    if chunks != [] {
      assert |aead.seal(key, nonce, chunks[0])| == |chunks[0]| + TagSize;
      SealFramesLength(aead, key, Incremented(nonce), chunks[1..]);
    }
  }

  lemma AfterChain(x: Run, a: seq<byte>, ev: seq<Progress>, y: Run, b: seq<byte>, evs: seq<Progress>, z: Run)
    requires x == After(a, ev, y) && y == After(b, evs, z)
    ensures x == After(a + b, ev + evs, z)
  {
    AfterAfter(a, ev, b, evs, z);
  }

  /** The progress calls over the frames of `chunks`: the k-th reports the end of the k-th frame. */
  lemma {:induction false} DecryptEventsAt(chunks: seq<seq<byte>>, pos: nat, total: int)
    ensures var ev := DecryptEvents(chunks, pos, total);
      |ev| == |chunks| && forall k :: 0 <= k < |ev| ==> ev[k] == Progress(pos + FramedSize(chunks[..k + 1]), total)
  {
    if chunks != [] {
      var next := pos + 4 + |chunks[0]| + TagSize;
      DecryptEventsAt(chunks[1..], next, total);
      var ev := DecryptEvents(chunks, pos, total);
      var rest := DecryptEvents(chunks[1..], next, total);
      assert ev == [Progress(next, total)] + rest;
      forall k | 0 <= k < |ev| ensures ev[k] == Progress(pos + FramedSize(chunks[..k + 1]), total) {
        var pre := chunks[..k + 1];
        assert pre[0] == chunks[0] && pre[1..] == chunks[1..][..k];
        if k > 0 {
          assert ev[k] == rest[k - 1];
        } else {
          assert pre[1..] == [];
        }
      }
    }
  }

  /** The frames of `chunks`, sealed from `nonce` on and found in the input at `pos`, decrypt to
      the chunks in order, with one progress call each reporting the position just past its
      frame; the loop then goes on just past the last of them, with the nonce `|chunks|`
      increments further on. */
  lemma SealedFramesDecrypted(aead: Aead, key: seq<byte>, src: Source, pos: nat, nonce: seq<byte>,
                              chunks: seq<seq<byte>>, total: int, report: bool)
    requires AeadLaws(aead) && |nonce| == NonceSize
    requires forall c :: c in chunks ==> |c| <= ChunkSize
    requires var fs := SealFrames(aead, key, nonce, chunks);
      pos + |fs| <= |src.bytes| && src.bytes[pos..pos + |fs|] == fs
    ensures pos + FramedSize(chunks) <= |src.bytes|
    ensures DecryptLoop(aead, key, src, pos, nonce, total, report)
         == After(Concat(chunks), if report then DecryptEvents(chunks, pos, total) else [],
                  DecryptLoop(aead, key, src, pos + FramedSize(chunks), NonceAt(nonce, |chunks|), total, report))
  {
    var endPos, endNonce := pos + FramedSize(chunks), NonceAt(nonce, |chunks|);
    SealedFramesFrom(aead, key, src, pos, nonce, chunks, endPos, endNonce, total, report);
  }

  /** `SealedFramesDecrypted` with the end position and nonce named `endPos` and `endNonce`. */
  lemma {:induction false} SealedFramesFrom(aead: Aead, key: seq<byte>, src: Source, pos: nat, nonce: seq<byte>,
                                                 chunks: seq<seq<byte>>, endPos: nat, endNonce: seq<byte>,
                                                 total: int, report: bool)
    requires AeadLaws(aead) && |nonce| == NonceSize
    requires forall c :: c in chunks ==> |c| <= ChunkSize
    requires var fs := SealFrames(aead, key, nonce, chunks);
      pos + |fs| <= |src.bytes| && src.bytes[pos..pos + |fs|] == fs
    requires endPos == pos + FramedSize(chunks) && endNonce == NonceAt(nonce, |chunks|)
    ensures pos <= endPos <= |src.bytes|
    ensures DecryptLoop(aead, key, src, pos, nonce, total, report)
         == After(Concat(chunks), if report then DecryptEvents(chunks, pos, total) else [],
                  DecryptLoop(aead, key, src, endPos, endNonce, total, report))
    decreases |chunks|
  {
    if chunks == [] {
      AfterNothingBefore(DecryptLoop(aead, key, src, pos, nonce, total, report));
    } else {
      var next := pos + 4 + |chunks[0]| + TagSize;
      var nextNonce := Incremented(nonce);
      var tail := chunks[1..];
      SealedFramesSplit(aead, key, src.bytes, pos, nonce, chunks, next, nextNonce, tail);
      FrameStep(chunks, pos, nonce, next, nextNonce, tail, endPos, endNonce, total, report);
      ChunksBounded(chunks, tail);
      DecryptFrame(aead, key, src, pos, nonce, chunks[0], next);
      LoopOpened(aead, key, src, pos, nonce, chunks[0], next, total, report);
      SealedFramesFrom(aead, key, src, next, nextNonce, tail, endPos, endNonce, total, report);
      AfterChain(DecryptLoop(aead, key, src, pos, nonce, total, report),
                 chunks[0], if report then [Progress(next, total)] else [],
                 DecryptLoop(aead, key, src, next, nextNonce, total, report),
                 Concat(tail), if report then DecryptEvents(tail, next, total) else [],
                 DecryptLoop(aead, key, src, endPos, endNonce, total, report));
    }
  }

  /** The bookkeeping of the first of several frames: its plaintext, its progress call, and the
      end position and nonce seen from the frame after it. */
  lemma FrameStep(chunks: seq<seq<byte>>, pos: int, nonce: seq<byte>, next: int, nextNonce: seq<byte>,
                  tail: seq<seq<byte>>, endPos: int, endNonce: seq<byte>, total: int, report: bool)
    requires chunks != [] && next == pos + 4 + |chunks[0]| + TagSize
    requires nextNonce == Incremented(nonce) && tail == chunks[1..]
    requires endPos == pos + FramedSize(chunks) && endNonce == NonceAt(nonce, |chunks|)
    ensures endPos == next + FramedSize(tail) && endNonce == NonceAt(nextNonce, |tail|)
    ensures Concat(chunks) == chunks[0] + Concat(tail)
    ensures (if report then [Progress(next, total)] else []) + (if report then DecryptEvents(tail, next, total) else [])
         == (if report then DecryptEvents(chunks, pos, total) else [])
  {
    NonceAtShift(nonce, |tail|);
  }

  /** Every chunk of a sequence of at most `ChunkSize`-byte chunks, the first and those after
      it, is at most `ChunkSize` bytes. */
  lemma ChunksBounded(chunks: seq<seq<byte>>, tail: seq<seq<byte>>)
    requires chunks != [] && tail == chunks[1..]
    requires forall c :: c in chunks ==> |c| <= ChunkSize
    ensures |chunks[0]| <= ChunkSize && forall c :: c in tail ==> |c| <= ChunkSize
  {
    assert chunks[0] in chunks;
    assert forall c :: c in tail ==> c in chunks;
  }

  /** A turn that opens a chunk: the loop writes it, reports the position past its frame, and
      goes on there with the next nonce. */
  lemma LoopOpened(aead: Aead, key: seq<byte>, src: Source, pos: nat, nonce: seq<byte>, plain: seq<byte>,
                   next: nat, total: int, report: bool)
    requires pos <= |src.bytes| && DecryptTurn(aead, key, src, pos, nonce) == Opened(plain, next)
    ensures next <= |src.bytes|
    ensures DecryptLoop(aead, key, src, pos, nonce, total, report)
         == After(plain, if report then [Progress(next, total)] else [],
                  DecryptLoop(aead, key, src, next, Incremented(nonce), total, report))
  {
  }

  /** Sealed frames found at `pos`: the first frame lies at `pos`, and the frames of the
      remaining chunks, sealed from the next nonce on, lie just past it. */
  lemma SealedFramesSplit(aead: Aead, key: seq<byte>, bytes: seq<byte>, pos: nat, nonce: seq<byte>,
                          chunks: seq<seq<byte>>, next: nat, nextNonce: seq<byte>, tail: seq<seq<byte>>)
    requires chunks != [] && next == pos + 4 + |chunks[0]| + TagSize
    requires nextNonce == Incremented(nonce) && tail == chunks[1..]
    requires AeadLaws(aead) && |nonce| == NonceSize
    requires var fs := SealFrames(aead, key, nonce, chunks);
      pos + |fs| <= |bytes| && bytes[pos..pos + |fs|] == fs
    ensures var f := Frame(aead.seal(key, nonce, chunks[0]));
      pos + |f| <= |bytes| && bytes[pos..pos + |f|] == f
    ensures var fs := SealFrames(aead, key, nextNonce, tail);
      next + |fs| <= |bytes| && bytes[next..next + |fs|] == fs
  {
    var f := Frame(aead.seal(key, nonce, chunks[0]));
    var rest := SealFrames(aead, key, nextNonce, tail);
    var whole := bytes[pos..pos + |f| + |rest|];
    assert whole == f + rest;
    assert |f| == next - pos;
    assert bytes[pos..pos + |f|] == whole[..|f|] == f;
    assert bytes[next..next + |rest|] == whole[|f|..] == rest;
  }

  /** A container whose header and first frames are intact, whatever follows them, decrypts
      first to those frames' chunks, with a progress call per frame, and only then meets the
      rest of the input. */
  lemma DecryptKeepsEarlierPlaintext(aead: Aead, kdf: Kdf, src: Source, salt: seq<byte>, base: seq<byte>,
                                     chunks: seq<seq<byte>>, password: seq<byte>, total: int, report: bool)
    requires AeadLaws(aead) && |salt| == SaltSize && |base| == NonceSize
    requires forall c :: c in chunks ==> |c| <= ChunkSize
    requires var fs := SealFrames(aead, DeriveKey(kdf, password, salt), base, chunks);
      HeaderSize + |fs| <= |src.bytes| && src.bytes[..HeaderSize + |fs|] == salt + base + fs
    ensures HeaderSize + FramedSize(chunks) <= |src.bytes|
    ensures DecryptSpec(aead, kdf, src, password, total, report)
         == After(Concat(chunks), if report then DecryptEvents(chunks, HeaderSize, total) else [],
                  DecryptLoop(aead, DeriveKey(kdf, password, salt), src, HeaderSize + FramedSize(chunks),
                              NonceAt(base, |chunks|), total, report))
  {
    var key := DeriveKey(kdf, password, salt);
    var fs := SealFrames(aead, key, base, chunks);
    ContainerFields(src.bytes, salt, base, fs);
    HeaderParsed(aead, kdf, src, salt, base, password, total, report);
    SealedFramesDecrypted(aead, key, src, HeaderSize, base, chunks, total, report);
  }

  /** An input starting with `salt ‖ base ‖ fs` holds each of the three where the format puts it. */
  lemma ContainerFields(bytes: seq<byte>, salt: seq<byte>, base: seq<byte>, fs: seq<byte>)
    requires |salt| == SaltSize && |base| == NonceSize
    requires HeaderSize + |fs| <= |bytes| && bytes[..HeaderSize + |fs|] == salt + base + fs
    ensures bytes[..SaltSize] == salt && bytes[SaltSize..HeaderSize] == base
    ensures bytes[HeaderSize..HeaderSize + |fs|] == fs
  {
    var header := bytes[..HeaderSize + |fs|];
    assert bytes[..SaltSize] == header[..SaltSize] == salt;
    assert bytes[SaltSize..HeaderSize] == header[SaltSize..HeaderSize] == base;
    assert bytes[HeaderSize..HeaderSize + |fs|] == header[HeaderSize..] == fs;
  }

  /** Past a complete header holding `salt` and `base`, decryption is the frame loop under the
      key of `salt`, from the nonce `base`. */
  lemma HeaderParsed(aead: Aead, kdf: Kdf, src: Source, salt: seq<byte>, base: seq<byte>, password: seq<byte>,
                     total: int, report: bool)
    requires HeaderSize <= |src.bytes| && src.bytes[..SaltSize] == salt && src.bytes[SaltSize..HeaderSize] == base
    ensures DecryptSpec(aead, kdf, src, password, total, report)
         == DecryptLoop(aead, DeriveKey(kdf, password, salt), src, HeaderSize, base, total, report)
  {
    assert ReadFull(src, 0, SaltSize) == Filled(salt);
  }

  /** A container holding a header and the frames of `chunks` under the key of its salt, and
      nothing else, decrypts to the chunks in order, with a progress call per frame. */
  lemma DecryptContainer(aead: Aead, kdf: Kdf, salt: seq<byte>, base: seq<byte>, chunks: seq<seq<byte>>,
                         password: seq<byte>, total: int, report: bool)
    requires AeadLaws(aead) && |salt| == SaltSize && |base| == NonceSize
    requires forall c :: c in chunks ==> |c| <= ChunkSize
    ensures var container := salt + base + SealFrames(aead, DeriveKey(kdf, password, salt), base, chunks);
      && |container| == HeaderSize + FramedSize(chunks)
      && DecryptSpec(aead, kdf, Source(container, EOF), password, total, report)
         == Run(Concat(chunks), if report then DecryptEvents(chunks, HeaderSize, total) else [], Ok)
  {
    var key := DeriveKey(kdf, password, salt);
    var src := Source(salt + base + SealFrames(aead, key, base, chunks), EOF);
    assert src.bytes[..|src.bytes|] == src.bytes;
    SealFramesLength(aead, key, base, chunks);
    DecryptKeepsEarlierPlaintext(aead, kdf, src, salt, base, chunks, password, total, report);
    EndOfInput(aead, key, src, NonceAt(base, |chunks|), total, report);
    AfterNothing(Concat(chunks), if report then DecryptEvents(chunks, HeaderSize, total) else [], Ok);
  }

  /** At the end of a cleanly ending input, the loop stops without error. */
  lemma EndOfInput(aead: Aead, key: seq<byte>, src: Source, nonce: seq<byte>, total: int, report: bool)
    requires src.end == EOF
    ensures DecryptLoop(aead, key, src, |src.bytes|, nonce, total, report) == Run([], [], Ok)
  {
  }

  /** Decrypt progress over accepted frames: one call per frame, strictly increasing, the last
      at the position just past the last frame. */
  lemma {:induction false} DecryptEventsProgress(chunks: seq<seq<byte>>, pos: int, total: int)
    ensures var ev := DecryptEvents(chunks, pos, total);
      && |ev| == |chunks|
      && (forall k :: 0 <= k < |ev| ==> pos < ev[k].processed && ev[k].total == total)
      && (forall j, k :: 0 <= j < k < |ev| ==> ev[j].processed < ev[k].processed)
      && (|ev| > 0 ==> ev[|ev| - 1] == Progress(pos + FramedSize(chunks), total))
  {
    if chunks != [] {
      var next := pos + 4 + |chunks[0]| + TagSize;
      DecryptEventsProgress(chunks[1..], next, total);
      var ev := DecryptEvents(chunks, pos, total);
      var rest := DecryptEvents(chunks[1..], next, total);
      assert ev == [Progress(next, total)] + rest;
      assert forall k :: 0 < k < |ev| ==> ev[k] == rest[k - 1];
      if |rest| > 0 {
        assert rest[0].processed > next by {
          DecryptEventsFirst(chunks[1..], next, total);
        }
      }
    }
  }

  lemma DecryptEventsFirst(chunks: seq<seq<byte>>, pos: int, total: int)
    requires chunks != []
    ensures DecryptEvents(chunks, pos, total)[0].processed > pos
  {
  }

  /** Decrypting what `EncryptStream` wrote, with the same password, writes exactly the bytes
      the reader delivered and succeeds; its last progress call reports the container length,
      28 plus 4 + len + 16 per chunk, and it makes one call per chunk. */
  lemma RoundTrip(aead: Aead, kdf: Kdf, input: seq<ReadResult>, password: seq<byte>, salt: seq<byte>,
                  base: seq<byte>, totalIn: int, reportIn: bool, totalOut: int, reportOut: bool)
    requires AeadLaws(aead) && |salt| == SaltSize && |base| == NonceSize
    requires ReaderContract(input) && ReadEnd(input) == None
    ensures var enc := EncryptSpec(aead, kdf, input, password, totalIn, reportIn, Drawn(salt), Drawn(base));
      var dec := DecryptSpec(aead, kdf, Source(enc.written, EOF), password, totalOut, reportOut);
      && enc.outcome == Ok
      && dec.written == Delivered(input)
      && dec.outcome == Ok
      && |enc.written| == HeaderSize + FramedSize(Chunks(input))
      && (reportOut ==> |dec.events| == |Chunks(input)|)
      && (reportOut && dec.events != [] ==> dec.events[|dec.events| - 1].processed == |enc.written|)
  {
    var chunks := Chunks(input);
    ChunksDelivered(input);
    EncryptLayout(aead, kdf, input, password, totalIn, reportIn, salt, base);
    DecryptContainer(aead, kdf, salt, base, chunks, password, totalOut, reportOut);
    DecryptEventsProgress(chunks, HeaderSize, totalOut);
  }

  /** The first `j` frames of what `EncryptStream` wrote, with its header, are the container of
      the first `j` chunks. */
  lemma EncryptedPrefix(aead: Aead, kdf: Kdf, input: seq<ReadResult>, password: seq<byte>,
                        salt: seq<byte>, base: seq<byte>, j: nat, total: int, report: bool)
    requires AeadLaws(aead) && |salt| == SaltSize && |base| == NonceSize && j <= |Chunks(input)|
    ensures var enc := EncryptSpec(aead, kdf, input, password, total, report, Drawn(salt), Drawn(base));
      var cut := HeaderSize + FramedSize(Chunks(input)[..j]);
      && cut <= |enc.written|
      && enc.written[..cut] == salt + base + SealFrames(aead, DeriveKey(kdf, password, salt), base, Chunks(input)[..j])
  {
    var key := DeriveKey(kdf, password, salt);
    var fs := SealFrames(aead, key, base, Chunks(input));
    var cut := FramedSize(Chunks(input)[..j]);
    FramesPrefix(aead, key, base, Chunks(input), j);
    EncryptLayout(aead, kdf, input, password, total, report, salt, base);
    assert (salt + base + fs)[..HeaderSize + cut] == salt + base + fs[..cut];
  }

  /** The frames of the first `j` chunks are a prefix of the frames of all of them. */
  lemma FramesPrefix(aead: Aead, key: seq<byte>, base: seq<byte>, chunks: seq<seq<byte>>, j: nat)
    requires AeadLaws(aead) && |base| == NonceSize && j <= |chunks|
    ensures var fs := SealFrames(aead, key, base, chunks);
      FramedSize(chunks[..j]) <= |fs| && fs[..FramedSize(chunks[..j])] == SealFrames(aead, key, base, chunks[..j])
  {
    assert chunks == chunks[..j] + chunks[j..];
    SealFramesAppend(aead, key, base, chunks[..j], chunks[j..]);
    SealFramesLength(aead, key, base, chunks[..j]);
  }

  /** Truncation at a frame boundary goes unnoticed: the header and the first j frames of an
      encryption decrypt, without error, to the first j chunks, with their progress calls. */
  lemma TruncatedAtFrameBoundary(aead: Aead, kdf: Kdf, input: seq<ReadResult>, password: seq<byte>,
                                 salt: seq<byte>, base: seq<byte>, j: nat,
                                 totalIn: int, reportIn: bool, totalOut: int, reportOut: bool)
    requires AeadLaws(aead) && |salt| == SaltSize && |base| == NonceSize
    requires ReaderContract(input) && j <= |Chunks(input)|
    ensures var enc := EncryptSpec(aead, kdf, input, password, totalIn, reportIn, Drawn(salt), Drawn(base));
      var cut := HeaderSize + FramedSize(Chunks(input)[..j]);
      && cut <= |enc.written|
      && DecryptSpec(aead, kdf, Source(enc.written[..cut], EOF), password, totalOut, reportOut)
         == Run(Concat(Chunks(input)[..j]),
                if reportOut then DecryptEvents(Chunks(input)[..j], HeaderSize, totalOut) else [], Ok)
  {
    var chunks := Chunks(input);
    ChunksDelivered(input);
    assert forall c :: c in chunks[..j] ==> c in chunks;
    EncryptedPrefix(aead, kdf, input, password, salt, base, j, totalIn, reportIn);
    DecryptContainer(aead, kdf, salt, base, chunks[..j], password, totalOut, reportOut);
  }
}
