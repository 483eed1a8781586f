/** DecompressFile of decompress.go: `filename` is decoded with the gzip
    reader into `filename` with one trailing `suffix` removed, staged and
    promoted by the protocol of module Transcode.  When the name does not
    end with the suffix the output path is the input path itself, which the
    lemmas at the end spell out. */
module Decompress {
  import opened Wire
  import opened Output
  import opened Files
  import opened Transcode
  import opened Codecs

  /** The output path: one trailing occurrence of the suffix removed. */
  function OutputPath(filename: string, suffix: string): (output: string)
    ensures HasSuffix(filename, suffix) ==> output + suffix == filename
    ensures !HasSuffix(filename, suffix) ==> output == filename
  {
    TrimSuffix(filename, suffix)
  }

  /** The transformation: the staged file receives the decoded payload,
      unless the header or the payload is refused, a step fails, or the
      payload does not fit in the room the file has. */
  function DecompressStage(env: Env, input: seq<byte>): (r: Result<seq<byte>, Phase>)
    ensures r.Ok? ==> env.gzipDecode(input) == Ok(r.value) && |r.value| <= env.room
    ensures env.gzipDecode(input).Err? ==> r == Err(NewCodec) || r == Err(Copy)
    ensures env.gzipDecode(input) == Err(HeaderInvalid) ==> r == Err(NewCodec)
    ensures (env.fault.None? && env.gzipDecode(input).Ok? && |env.gzipDecode(input).value| <= env.room)
            ==> r.Ok?
    // NewReader is always reached, the copy unless the header is refused.
    ensures Fails(env, Stage(NewCodec)) ==> r == Err(NewCodec)
    ensures env.gzipDecode(input) != Err(HeaderInvalid) && Fails(env, Stage(Copy)) ==> r == Err(Copy)
    ensures !FailsIn(env, {NewCodec, Copy}) && env.gzipDecode(input) == Err(PayloadCorrupt) ==> r == Err(Copy)
    ensures !FailsIn(env, {NewCodec, Copy}) && env.gzipDecode(input).Ok? && |env.gzipDecode(input).value| > env.room
            ==> r == Err(Copy)
    // After a copy that fitted, the reader's Close and then the input's Close.
    ensures env.gzipDecode(input).Ok? && |env.gzipDecode(input).value| <= env.room ==>
              if FailsIn(env, {NewCodec, Copy, CloseCodec, CloseInput}) then r == Err(env.fault.value.phase)
              else r == Ok(env.gzipDecode(input).value)
  {
    var decoded := env.gzipDecode(input);
    if Fails(env, Stage(NewCodec)) || decoded == Err(HeaderInvalid) then Err(NewCodec)
    else if Fails(env, Stage(Copy)) || decoded.Err? || |decoded.value| > env.room then Err(Copy)
    else if Fails(env, Stage(CloseCodec)) then Err(CloseCodec)
    else if Fails(env, Stage(CloseInput)) then Err(CloseInput)
    else Ok(decoded.value)
  }

  /** From `gzip.NewReader` to `inputFile.Close()`, writing into the buffer
      over the staged file. */
  method Decompressing(out: Sink, env: Env, input: seq<byte>) returns (r: Result<seq<byte>, Phase>)
    requires out.Valid() && out.data == [] && out.capacity == env.room
    modifies out
    ensures r == DecompressStage(env, input)
    ensures r.Ok? ==> out.data == r.value
  {
    var decoded := env.gzipDecode(input);
    if Fails(env, Stage(NewCodec)) || decoded == Err(HeaderInvalid) {
      return Err(NewCodec);
    }
    if Fails(env, Stage(Copy)) || decoded.Err? {
      return Err(Copy);
    }
    var copied := CopyOut(out, decoded.value);
    if !copied {
      return Err(Copy);
    }
    assert out.data == decoded.value;
    if Fails(env, Stage(CloseCodec)) {
      return Err(CloseCodec);
    }
    if Fails(env, Stage(CloseInput)) {
      return Err(CloseInput);
    }
    return Ok(out.data);
  }

  /** DecompressFile: its effect on the filesystem and its error are
      exactly those of the protocol with output path
      `OutputPath(filename, suffix)`, and the temporary file is gone
      whatever happened. */
  method DecompressFile(fs: FileSystem, env: Env, filename: string, suffix: string, keep: bool, force: bool)
      returns (err: Option<Step>)
    requires fs.pending == None
    modifies fs
    ensures fs.pending == None
    ensures Outcome(fs.files, err)
            == Run(old(fs.files), filename, OutputPath(filename, suffix), keep, force, env.fault,
                   input => DecompressStage(env, input))
  {
    var outputFilename := OutputPath(filename, suffix);
    err := Prepare(fs, env.fault, filename, outputFilename, force);
    if err.Some? {
      return;
    }
    var input := fs.ReadAll(filename);
    var outputBuffer := new Sink(env.room);
    var staged := Decompressing(outputBuffer, env, input);
    if staged.Err? {
      fs.Cleanup();
      return Some(Stage(staged.error));
    }
    err := Finish(fs, env.fault, filename, outputFilename, keep, staged.value);
  }

  /** Only the last occurrence of the suffix goes. */
  lemma DoubleSuffix()
    ensures OutputPath("a.gz.gz", ".gz") == "a.gz"
  {
    assert HasSuffix("a.gz.gz", ".gz");
  }

  /** Without the suffix and without force, the input is its own output
      path: the call is refused and nothing changes. */
  lemma MissingSuffixRefused(files: map<string, seq<byte>>, filename: string, suffix: string, keep: bool,
                             env: Env)
    requires filename in files && !HasSuffix(filename, suffix)
    requires env.fault !in {Some(StatInput), Some(OpenInput)}
    ensures Run(files, filename, OutputPath(filename, suffix), keep, false, env.fault,
                input => DecompressStage(env, input))
            == Outcome(files, Some(OutputExists))
  {
  }

  /** Without the suffix, with force and without keep, a successful call
      promotes the decoded data onto the input path and then removes that
      path: the file is gone and the call reports success. */
  lemma MissingSuffixForcedLosesFile(files: map<string, seq<byte>>, filename: string, suffix: string, env: Env)
    requires filename in files && !HasSuffix(filename, suffix)
    requires env.fault.None?
    requires DecompressStage(env, files[filename]).Ok?
    ensures var o := Run(files, filename, OutputPath(filename, suffix), false, true, env.fault,
                         input => DecompressStage(env, input));
            o.err == None && filename !in o.files && o.files == files - {filename}
  {
    var data := DecompressStage(env, files[filename]).value;
    assert files[filename := data] - {filename} == files - {filename};
  }
}
