/** What `EncryptStream` writes and reports, stated without reference to its loop: the header,
    then one frame per non-empty read, in read order, the k-th sealed under the k-th nonce. */
module EncryptProps {
  import opened Bytes
  import opened Nonce
  import opened Primitives
  import opened Container

  /** The bytes the reader delivers before the encryption stops: the data of every read up to
      and including the first one that reports an error (`io.EOF` or another). */
  function Delivered(input: seq<ReadResult>): seq<byte>
  {
    if input == [] then []
    else input[0].data + (if input[0].err.Some? then [] else Delivered(input[1..]))
  }

  /** The error `EncryptStream` returns: nil, unless the reader reports an error other than
      `io.EOF` before reporting `io.EOF`. */
  function EndOutcome(input: seq<ReadResult>): Outcome
  {
    match ReadEnd(input)
    case None => Ok
    case Some(e) => Err(Io(e))
  }

  lemma {:induction false} ConcatAppend(a: seq<seq<byte>>, b: seq<seq<byte>>)
    ensures Concat(a + b) == Concat(a) + Concat(b)
  {
    if a == [] {
      assert a + b == b;
    } else {
      assert (a + b)[0] == a[0] && (a + b)[1..] == a[1..] + b;
      ConcatAppend(a[1..], b);
    }
  }

  /** The chunks are exactly the bytes delivered, cut at read boundaries, with empty reads
      dropped; each is non-empty, and at most `ChunkSize` long when the reader keeps the
      io.Reader contract. */
  lemma {:induction false} ChunksDelivered(input: seq<ReadResult>)
    ensures Concat(Chunks(input)) == Delivered(input)
    ensures forall c :: c in Chunks(input) ==> 0 < |c|
    ensures ReaderContract(input) ==> forall c :: c in Chunks(input) ==> |c| <= ChunkSize
  {
    if input != [] {
      var d := input[0].data;
      var head: seq<seq<byte>> := if |d| > 0 then [d] else [];
      var rest: seq<seq<byte>> := if input[0].err.Some? then [] else Chunks(input[1..]);
      assert Chunks(input) == head + rest;
      ConcatAppend(head, rest);
      if |d| > 0 {
        assert Concat(head) == d + Concat([]);
      } else {
        assert d == [];
      }
      if input[0].err.None? {
        ChunksDelivered(input[1..]);
        assert ReaderContract(input) ==> ReaderContract(input[1..]) by {
          forall r | r in input[1..] ensures r in input { }
        }
      } else {
        assert Concat(rest) == [];
      }
      assert ReaderContract(input) ==> |d| <= ChunkSize by {
        assert input[0] in input;
      }
    }
  }

  /** The frames of `a + b`: those of `a`, then those of `b` starting from the nonce `|a|`
      increments further on. */
  lemma {:induction false} SealFramesAppend(aead: Aead, key: seq<byte>, nonce: seq<byte>,
                                            a: seq<seq<byte>>, b: seq<seq<byte>>)
    ensures SealFrames(aead, key, nonce, a + b)
         == SealFrames(aead, key, nonce, a) + SealFrames(aead, key, NonceAt(nonce, |a|), b)
    decreases |a|
  {
    if a == [] {
      assert a + b == b;
    } else {
      assert (a + b)[0] == a[0] && (a + b)[1..] == a[1..] + b;
      SealFramesAppend(aead, key, Incremented(nonce), a[1..], b);
      NonceAtShift(nonce, |a| - 1);
    }
  }

  /** The k-th frame (0-based) seals the k-th chunk under the base nonce incremented k times,
      and sits right after the frames of the chunks before it. */
  lemma SealFramesAt(aead: Aead, key: seq<byte>, nonce: seq<byte>, chunks: seq<seq<byte>>, k: nat)
    requires k < |chunks|
    ensures SealFrames(aead, key, nonce, chunks)
         == SealFrames(aead, key, nonce, chunks[..k])
          + Frame(aead.seal(key, NonceAt(nonce, k), chunks[k]))
          + SealFrames(aead, key, NonceAt(nonce, k + 1), chunks[k + 1..])
  {
    assert chunks == chunks[..k] + chunks[k..];
    SealFramesAppend(aead, key, nonce, chunks[..k], chunks[k..]);
    assert chunks[k..][0] == chunks[k] && chunks[k..][1..] == chunks[k + 1..];
  }

  /** A frame of a chunk the reader could deliver declares, without truncation to 32 bits, the
      chunk's length plus the tag, which never exceeds the limit `DecryptStream` enforces. */
  lemma FrameLengthField(aead: Aead, key: seq<byte>, nonce: seq<byte>, c: seq<byte>)
    requires AeadLaws(aead) && |nonce| == NonceSize && |c| <= ChunkSize
    ensures var f := Frame(aead.seal(key, nonce, c));
      |f| == 4 + |c| + TagSize && Uint32(f[..4]) == |c| + TagSize <= MaxSealedLen
  {
    var sealed := aead.seal(key, nonce, c);
    assert |sealed| == |c| + TagSize;
    ModExact(|sealed|, Uint32Limit, 0);
    PutUint32RoundTrip(|sealed|);
    assert Frame(sealed)[..4] == PutUint32(|sealed|);
  }

  /** The frames and progress calls of one read's chunk, if any, followed by further chunks. */
  lemma SealReadThen(aead: Aead, key: seq<byte>, d: seq<byte>, nonce: seq<byte>, processed: int,
                     total: int, report: bool, tail: seq<seq<byte>>)
    ensures var step := SealRead(aead, key, d, nonce, processed, total, report);
      var chunks := (if |d| > 0 then [d] else []) + tail;
      && SealFrames(aead, key, nonce, chunks) == step.frame + SealFrames(aead, key, step.nonce, tail)
      && (if report then EncryptEvents(chunks, processed, total) else [])
         == step.events + (if report then EncryptEvents(tail, step.processed, total) else [])
  {
    if |d| > 0 {
      var chunks := [d] + tail;
      assert chunks[0] == d && chunks[1..] == tail;
    } else {
      assert [] + tail == tail;
    }
  }

  /** The read loop, characterised: the frames of the chunks, one progress call per chunk, and
      the reader's first non-EOF error if it reports one before `io.EOF`. */
  lemma {:induction false} EncryptLoopFrames(aead: Aead, key: seq<byte>, input: seq<ReadResult>,
                                             nonce: seq<byte>, processed: int, total: int, report: bool)
    ensures EncryptLoop(aead, key, input, nonce, processed, total, report)
         == Run(SealFrames(aead, key, nonce, Chunks(input)),
                if report then EncryptEvents(Chunks(input), processed, total) else [],
                EndOutcome(input))
    decreases |input|
  {
    if input != [] {
      var d := input[0].data;
      var step := SealRead(aead, key, d, nonce, processed, total, report);
      var head: seq<seq<byte>> := if |d| > 0 then [d] else [];
      if input[0].err.Some? {
        SealReadThen(aead, key, d, nonce, processed, total, report, []);
        assert Chunks(input) == head + [];
        assert step.frame + [] == step.frame && step.events + [] == step.events;
      } else {
        var rest := input[1..];
        SealReadThen(aead, key, d, nonce, processed, total, report, Chunks(rest));
        EncryptLoopFrames(aead, key, rest, step.nonce, step.processed, total, report);
        assert Chunks(input) == head + Chunks(rest);
      }
    }
  }

  /** `EncryptStream` with both random draws succeeding writes salt, base nonce and the frames
      of the chunks; reports one progress call per chunk; and fails only with a read error. */
  lemma EncryptLayout(aead: Aead, kdf: Kdf, input: seq<ReadResult>, password: seq<byte>, total: int,
                      report: bool, salt: seq<byte>, base: seq<byte>)
    ensures EncryptSpec(aead, kdf, input, password, total, report, Drawn(salt), Drawn(base))
         == Run(salt + base + SealFrames(aead, DeriveKey(kdf, password, salt), base, Chunks(input)),
                if report then EncryptEvents(Chunks(input), 0, total) else [],
                EndOutcome(input))
  {
    var key := DeriveKey(kdf, password, salt);
    EncryptLoopFrames(aead, key, input, base, 0, total, report);
    var events := if report then EncryptEvents(Chunks(input), 0, total) else [];
    assert [] + events == events;
  }

  lemma {:induction false} NoDataNoChunks(input: seq<ReadResult>)
    requires forall r :: r in input ==> r.data == []
    ensures Chunks(input) == []
  {
    if input != [] {
      assert input[0] in input;
      assert forall r :: r in input[1..] ==> r in input;
      NoDataNoChunks(input[1..]);
    }
  }

  /** A reader that delivers no bytes yields only the 28-byte header, and no progress call. */
  lemma EncryptEmptyInput(aead: Aead, kdf: Kdf, input: seq<ReadResult>, password: seq<byte>, total: int,
                          report: bool, salt: seq<byte>, base: seq<byte>)
    requires |salt| == SaltSize && |base| == NonceSize
    requires forall r :: r in input ==> r.data == []
    ensures var run := EncryptSpec(aead, kdf, input, password, total, report, Drawn(salt), Drawn(base));
      run.written == salt + base && |run.written| == HeaderSize && run.events == []
  {
    NoDataNoChunks(input);
    EncryptLayout(aead, kdf, input, password, total, report, salt, base);
    assert salt + base + [] == salt + base;
  }

  /** Encrypt progress: one call per chunk, `totalBytes` passed through, `processed` equal to
      the plaintext bytes sealed so far, strictly increasing. */
  lemma {:induction false} EncryptProgress(chunks: seq<seq<byte>>, processed: int, total: int)
    requires forall c :: c in chunks ==> 0 < |c|
    ensures var ev := EncryptEvents(chunks, processed, total);
      && |ev| == |chunks|
      && (forall k :: 0 <= k < |ev| ==> ev[k] == Progress(processed + |Concat(chunks[..k + 1])|, total))
      && (forall k :: 0 <= k < |ev| ==> processed < ev[k].processed)
      && (forall j, k :: 0 <= j < k < |ev| ==> ev[j].processed < ev[k].processed)
      && (|ev| > 0 ==> ev[|ev| - 1].processed == processed + |Concat(chunks)|)
  {
    if chunks != [] {
      var c := chunks[0];
      var p := processed + |c|;
      assert c in chunks;
      assert forall d :: d in chunks[1..] ==> d in chunks;
      EncryptProgress(chunks[1..], p, total);
      var ev := EncryptEvents(chunks, processed, total);
      var rest := EncryptEvents(chunks[1..], p, total);
      assert ev == [Progress(p, total)] + rest;
      forall k | 0 <= k < |ev|
        ensures ev[k] == Progress(processed + |Concat(chunks[..k + 1])|, total)
      {
        var pre := chunks[..k + 1];
        assert pre[0] == c && pre[1..] == chunks[1..][..k];
        if k > 0 {
          assert ev[k] == rest[k - 1];
        } else {
          assert pre[1..] == [];
        }
      }
      assert chunks[..|chunks|] == chunks;
    }
  }
}
