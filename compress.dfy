/** CompressFile of compress.go: `filename` is compressed with the gzip
    writer into `filename + suffix`, staged and promoted by the protocol of
    module Transcode. */
module Compress {
  import opened Wire
  import opened GzipHeader
  import opened Output
  import opened Files
  import opened Transcode
  import opened Codecs

  /** The header the gzip writer carries: the writer's default, with Name
      (the base name of the input) and ModTime (its modification time) set
      only when `named`. */
  function GzipHeaderFor(named: bool, filename: string, modUnix: int): (h: Header)
    ensures h.extra == None && h.comment == "" && h.os == OSUnknown
    ensures h.name != "" <==> named
    ensures named ==> h.name == BaseName(filename) && h.modUnix == modUnix
    ensures !named ==> h.modUnix == ZeroTimeUnix
  {
    if named then DefaultHeader.(name := BaseName(filename), modUnix := modUnix) else DefaultHeader
  }

  /** The transformation: the staged file receives the gzip member of the
      whole input, unless a step between creating the writer and closing
      it fails or the member does not fit in the room the file has. */
  function CompressStage(env: Env, level: int, header: Header, input: seq<byte>): (r: Result<seq<byte>, Phase>)
    ensures r.Ok? ==> r.value == env.gzipEncode(level, header, input) && |r.value| <= env.room
    ensures r.Err? ==> Fails(env, Stage(r.error))
                       || (r.error == CloseCodec && |env.gzipEncode(level, header, input)| > env.room)
    ensures (env.fault.None? && |env.gzipEncode(level, header, input)| <= env.room) ==> r.Ok?
    // Every phase is reached, so a failing phase is the error.
    ensures FailsIn(env, {NewCodec, Copy, CloseInput, FlushCodec, CloseCodec}) ==> r == Err(env.fault.value.phase)
    ensures !FailsIn(env, {NewCodec, Copy, CloseInput, FlushCodec, CloseCodec}) ==>
              if |env.gzipEncode(level, header, input)| > env.room then r == Err(CloseCodec)
              else r == Ok(env.gzipEncode(level, header, input))
  {
    if Fails(env, Stage(NewCodec)) then Err(NewCodec)
    else if Fails(env, Stage(Copy)) then Err(Copy)
    else if Fails(env, Stage(CloseInput)) then Err(CloseInput)
    else if Fails(env, Stage(FlushCodec)) then Err(FlushCodec)
    else
      var member := env.gzipEncode(level, header, input);
      if Fails(env, Stage(CloseCodec)) || |member| > env.room then Err(CloseCodec)
      else Ok(member)
  }

  /** From `gzip.NewWriterLevel` to `zw.Close()`, writing into the buffer
      over the staged file. */
  method Compressing(out: Sink, env: Env, level: int, named: bool, filename: string, input: seq<byte>)
      returns (r: Result<seq<byte>, Phase>)
    requires out.Valid() && out.data == [] && out.capacity == env.room
    modifies out
    ensures r == CompressStage(env, level, GzipHeaderFor(named, filename, env.modUnix(filename)), input)
    ensures r.Ok? ==> out.data == r.value
  {
    if Fails(env, Stage(NewCodec)) {
      return Err(NewCodec);
    }
    var zw := new GzipWriter(out, level);
    if named {
      zw.header := zw.header.(name := BaseName(filename), modUnix := env.modUnix(filename));
    }
    assert zw.header == GzipHeaderFor(named, filename, env.modUnix(filename));
    CopyInto(zw, input);
    assert zw.consumed == input;
    if Fails(env, Stage(Copy)) {
      return Err(Copy);
    }
    if Fails(env, Stage(CloseInput)) {
      return Err(CloseInput);
    }
    if Fails(env, Stage(FlushCodec)) {
      return Err(FlushCodec);
    }
    var closed := zw.Close(env.gzipEncode);
    if !closed || Fails(env, Stage(CloseCodec)) {
      return Err(CloseCodec);
    }
    assert out.data == env.gzipEncode(level, zw.header, input);
    return Ok(out.data);
  }

  /** CompressFile: its effect on the filesystem and its error are exactly
      those of the protocol with output path `filename + suffix`, and the
      temporary file is gone whatever happened. */
  method CompressFile(fs: FileSystem, env: Env, filename: string, suffix: string, level: int,
                      keep: bool, force: bool, named: bool) returns (err: Option<Step>)
    requires fs.pending == None
    modifies fs
    ensures fs.pending == None
    ensures Outcome(fs.files, err)
            == Run(old(fs.files), filename, filename + suffix, keep, force, env.fault,
                   input => CompressStage(env, level, GzipHeaderFor(named, filename, env.modUnix(filename)), input))
  {
    var outputFilename := filename + suffix;
    err := Prepare(fs, env.fault, filename, outputFilename, force);
    if err.Some? {
      return;
    }
    var input := fs.ReadAll(filename);
    var outputBuffer := new Sink(env.room);
    var staged := Compressing(outputBuffer, env, level, named, filename, input);
    if staged.Err? {
      fs.Cleanup();
      return Some(Stage(staged.error));
    }
    err := Finish(fs, env.fault, filename, outputFilename, keep, staged.value);
  }
}
