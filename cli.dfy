/** The command-line front end: where `encrypt` and `decrypt` write their output, and the check
    that both `-f` and `-p` were given before anything runs. Flag values are taken as given; the
    password as its bytes. */
module Cli {
  import opened Bytes

  const EncExt: string := ".enc"
  const DecExt: string := ".dec"

  /** `strings.HasSuffix`. */
  predicate HasSuffix(s: string, suffix: string)
  {
    |suffix| <= |s| && s[|s| - |suffix|..] == suffix
  }

  /** `strings.TrimSuffix`: `s` without a trailing `suffix`, or `s` itself when it has none. */
  function TrimSuffix(s: string, suffix: string): (r: string)
    ensures HasSuffix(s, suffix) ==> r + suffix == s
    ensures !HasSuffix(s, suffix) ==> r == s
  {
    if HasSuffix(s, suffix) then s[..|s| - |suffix|] else s
  }

  /** The output path of `encrypt -f input`. */
  function EncryptOutputPath(input: string): string
  {
    input + EncExt
  }

  /** The output path of `decrypt -f input`: one trailing ".enc" trimmed, and when trimming left
      the path unchanged, ".dec" appended instead. */
  function DecryptOutputPath(input: string): string
  {
    var trimmed := TrimSuffix(input, EncExt);
    if trimmed == input then input + DecExt else trimmed
  }

  /** The decrypt output path drops a trailing ".enc" when there is one, and appends ".dec"
      otherwise: the "unchanged" test catches exactly the paths without the suffix. */
  lemma DecryptOutputPathRule(input: string)
    ensures HasSuffix(input, EncExt) ==> DecryptOutputPath(input) + EncExt == input
    ensures !HasSuffix(input, EncExt) ==> DecryptOutputPath(input) == input + DecExt
  {
    if HasSuffix(input, EncExt) {
      assert |TrimSuffix(input, EncExt)| < |input|;
    }
  }

  /** Decrypting the file `encrypt` wrote puts the result back at the original path, for every
      path, the empty one included. */
  lemma OutputPathRoundTrip(input: string)
    ensures DecryptOutputPath(EncryptOutputPath(input)) == input
  {
    var enc := EncryptOutputPath(input);
    assert HasSuffix(enc, EncExt) by {
      assert enc[|enc| - |EncExt|..] == EncExt;
    }
    DecryptOutputPathRule(enc);
  }

  /** `decrypt` never writes over its own input. */
  lemma DecryptOutputPathFresh(input: string)
    ensures DecryptOutputPath(input) != input
  {
    DecryptOutputPathRule(input);
    if HasSuffix(input, EncExt) {
      assert |DecryptOutputPath(input)| == |input| - |EncExt|;
    } else {
      assert |DecryptOutputPath(input)| == |input| + |DecExt|;
    }
  }

  /** The path ".enc" decrypts to the empty path. */
  lemma BareExtensionDecryptsToEmpty()
    ensures DecryptOutputPath(EncExt) == ""
  {
    assert HasSuffix(EncExt, EncExt) by {
      assert EncExt[|EncExt| - |EncExt|..] == EncExt;
    }
    DecryptOutputPathRule(EncExt);
  }

  /** What one `encrypt` or `decrypt` command line does: stop with the usage message, or run
      the file operation from `input` to `output` under `password`. */
  datatype Invocation =
    | MissingFlags
    | EncryptFile(input: string, output: string, password: seq<byte>)
    | DecryptFile(input: string, output: string, password: seq<byte>)

  /** `runEncrypt`, given the values of `-f` and `-p`. */
  function RunEncrypt(file: string, password: seq<byte>): (r: Invocation)
    ensures r != MissingFlags <==> file != "" && password != []
    ensures r != MissingFlags ==> r.EncryptFile? && r.input == file && r.output == EncryptOutputPath(file) && r.password == password
  {
    if file == "" || password == [] then MissingFlags
    else EncryptFile(file, EncryptOutputPath(file), password)
  }

  /** `runDecrypt`, given the values of `-f` and `-p`. */
  function RunDecrypt(file: string, password: seq<byte>): (r: Invocation)
    ensures r != MissingFlags <==> file != "" && password != []
    ensures r != MissingFlags ==> r.DecryptFile? && r.input == file && r.output == DecryptOutputPath(file) && r.password == password
  {
    if file == "" || password == [] then MissingFlags
    else DecryptFile(file, DecryptOutputPath(file), password)
  }

  /** `encrypt -f f -p p` followed by `decrypt` on the file it wrote, with the same password,
      writes to `f` again, and neither command writes over its own input. */
  lemma CommandRoundTrip(file: string, password: seq<byte>)
    requires file != "" && password != []
    ensures var e := RunEncrypt(file, password);
      var d := RunDecrypt(e.output, password);
      && e.EncryptFile? && d.DecryptFile?
      && d.input == e.output && d.output == file
      && e.output != e.input && d.output != d.input
  {
    OutputPathRoundTrip(file);
    DecryptOutputPathFresh(EncryptOutputPath(file));
  }
}
