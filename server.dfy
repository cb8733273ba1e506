/** The HTTP front end's `/encrypt` and `/decrypt` handlers, without the HTTP plumbing: the
    checks each makes before streaming, in order, and the download name each announces. A
    request is what the handler reads from it: its HTTP method, whether its multipart form parsed,
    the uploaded file if there is one, and the `password` form value as bytes. */
module Server {
  import opened Bytes
  import opened Primitives
  import opened Container
  import opened EncryptProps
  import opened DecryptProps
  import Cli

  const StatusBadRequest: nat := 400
  const StatusMethodNotAllowed: nat := 405

  /** The uploaded file: its name and size from the multipart header, and its contents. */
  datatype Upload<C> = Upload(filename: string, size: int, content: C)

  datatype Request<C> = Request(httpMethod: string, formParsed: bool, file: Option<Upload<C>>, password: seq<byte>)

  /** `http.Error` with a status and message, or an attachment download of the stream's output.
      A stream error after the headers are sent is only logged: the run's outcome is kept but the
      response stays a download. */
  datatype Response = Failed(status: nat, message: string) | Attachment(filename: string, body: Run)

  /** The download name `/encrypt` announces. */
  function EncryptDownloadName(filename: string): string
  {
    filename + Cli.EncExt
  }

  /** The download name `/decrypt` announces: a name longer than ".enc" that ends with it loses
      it; any other name gets ".dec" appended. Never empty. */
  function DecryptDownloadName(filename: string): (r: string)
    ensures |filename| > |Cli.EncExt| && Cli.HasSuffix(filename, Cli.EncExt) ==> r + Cli.EncExt == filename
    ensures !(|filename| > |Cli.EncExt| && Cli.HasSuffix(filename, Cli.EncExt)) ==> r == filename + Cli.DecExt
    ensures r != ""
  {
    if |filename| > 4 && filename[|filename| - 4..] == Cli.EncExt then filename[..|filename| - 4]
    else filename + Cli.DecExt
  }

  /** The download of an upload named `n` decrypts back to the name `n`, except for the empty
      name, whose ".enc" download is too short to be stripped and becomes ".enc.dec". */
  lemma DownloadNameRoundTrip(n: string)
    ensures DecryptDownloadName(EncryptDownloadName(n)) == n <==> n != ""
  {
    var e := EncryptDownloadName(n);
    assert e[|e| - 4..] == Cli.EncExt;
    assert e[..|e| - 4] == n;
    if n == "" {
      assert DecryptDownloadName(e) == ".enc.dec";
    }
  }

  /** The server and the command line derive the same decrypt name for every name except
      ".enc" itself, which the command line maps to "" and the server to ".enc.dec". */
  lemma DownloadNameMatchesCli(n: string)
    ensures DecryptDownloadName(n) == Cli.DecryptOutputPath(n) <==> n != Cli.EncExt
  {
    Cli.DecryptOutputPathRule(n);
    if n == Cli.EncExt {
      Cli.BareExtensionDecryptsToEmpty();
    } else if Cli.HasSuffix(n, Cli.EncExt) {
      assert n == n[..|n| - 4] + n[|n| - 4..];
      assert Cli.DecryptOutputPath(n) == n[..|n| - 4];
    } else {
      assert !(|n| > 4 && n[|n| - 4..] == Cli.EncExt);
    }
  }

  /** A decrypted download never carries the uploaded file's own name. */
  lemma DecryptDownloadNameFresh(n: string)
    ensures DecryptDownloadName(n) != n
  {
    if |n| > 4 && n[|n| - 4..] == Cli.EncExt {
      assert |DecryptDownloadName(n)| == |n| - 4;
    } else {
      assert |DecryptDownloadName(n)| == |n| + 4;
    }
  }

  /** The checks both handlers make before streaming, in order: the method, the multipart form,
      the "file" part, the password. `None` when every check passes. */
  function Refusal<C>(req: Request<C>): (r: Option<Response>)
    ensures r.None? <==> req.httpMethod == "POST" && req.formParsed && req.file.Some? && req.password != []
    ensures r.Some? ==> r.value.Failed?
    ensures req.httpMethod != "POST" ==> r == Some(Failed(StatusMethodNotAllowed, "Method not allowed"))
    ensures req.httpMethod == "POST" && r.Some? ==> r.value.status == StatusBadRequest
  {
    if req.httpMethod != "POST" then Some(Failed(StatusMethodNotAllowed, "Method not allowed"))
    else if !req.formParsed then Some(Failed(StatusBadRequest, "File too large"))
    else if req.file.None? then Some(Failed(StatusBadRequest, "Invalid file"))
    else if req.password == [] then Some(Failed(StatusBadRequest, "Password required"))
    else None
  }

  /** `handleEncrypt`: with every check passed, streams `EncryptStream` of the upload, with the
      upload's size as `totalBytes` and no progress callback, as a download named after it. */
  function HandleEncrypt(aead: Aead, kdf: Kdf, req: Request<seq<ReadResult>>, saltDraw: Draw, nonceDraw: Draw): (r: Response)
    ensures r.Attachment? <==> Refusal(req).None?
    ensures r.Attachment? ==>
      && r.filename == EncryptDownloadName(req.file.value.filename)
      && r.body == EncryptSpec(aead, kdf, req.file.value.content, req.password, req.file.value.size,
                               false, saltDraw, nonceDraw)
  {
    match Refusal(req)
    case Some(refused) => refused
    case None =>
      var upload := req.file.value;
      Attachment(EncryptDownloadName(upload.filename),
                 EncryptSpec(aead, kdf, upload.content, req.password, upload.size, false, saltDraw, nonceDraw))
  }

  /** `handleDecrypt`: with every check passed, streams `DecryptStream` of the upload, with the
      upload's size as `totalBytes` and no progress callback, as a download named by
      `DecryptDownloadName`. */
  function HandleDecrypt(aead: Aead, kdf: Kdf, req: Request<Source>): (r: Response)
    ensures r.Attachment? <==> Refusal(req).None?
    ensures r.Attachment? ==>
      && r.filename == DecryptDownloadName(req.file.value.filename)
      && r.body == DecryptSpec(aead, kdf, req.file.value.content, req.password, req.file.value.size, false)
  {
    match Refusal(req)
    case Some(refused) => refused
    case None =>
      var upload := req.file.value;
      Attachment(DecryptDownloadName(upload.filename),
                 DecryptSpec(aead, kdf, upload.content, req.password, upload.size, false))
  }

  /** Uploading an `/encrypt` download (not under an empty name) to `/decrypt` with the same
      password gives back the original name and exactly the bytes the original upload held. */
  lemma ServerRoundTrip(aead: Aead, kdf: Kdf, original: Request<seq<ReadResult>>, salt: seq<byte>, base: seq<byte>,
                        again: Request<Source>)
    requires AeadLaws(aead) && |salt| == SaltSize && |base| == NonceSize
    requires Refusal(original).None? && original.file.value.filename != ""
    requires ReaderContract(original.file.value.content) && ReadEnd(original.file.value.content) == None
    requires var download := HandleEncrypt(aead, kdf, original, Drawn(salt), Drawn(base));
      && again.httpMethod == "POST" && again.formParsed && again.password == original.password
      && again.file.Some? && again.file.value.filename == download.filename
      && again.file.value.content == Source(download.body.written, EOF)
    ensures var back := HandleDecrypt(aead, kdf, again);
      && back.Attachment?
      && back.filename == original.file.value.filename
      && back.body.written == Delivered(original.file.value.content)
      && back.body.outcome == Ok
  {
    var upload := original.file.value;
    DownloadNameRoundTrip(upload.filename);
    RoundTrip(aead, kdf, upload.content, original.password, salt, base, upload.size, false,
              again.file.value.size, false);
  }
}
