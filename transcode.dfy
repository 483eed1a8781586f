/** The protocol that CompressFile (compress.go), DecompressFile
    (decompress.go) and XflateCompressFile (xflate.go) share: stat and open
    the source, refuse an existing destination unless forced, stage the
    output in a temporary file, transform, atomically replace the
    destination, stat it, and remove the source unless asked to keep it.

    Run is that protocol over a map from paths to contents; each operation
    supplies its own output path and its own staging function (the bytes
    it would promote, or the phase at which the transformation failed), and
    its imperative method is proved to produce exactly Run's outcome.
    Failures of the operating system and of the external codecs come from
    an environment (Env); Run reports the step that fails, exactly when the
    protocol reaches it. */
module Transcode {
  import opened Wire
  import opened GzipHeader
  import opened Files

  /** Where the transformation between staging and promotion failed. */
  datatype Phase =
    | WriteHeader     // writeGzipHeader (xflate mode)
    | NewCodec        // creating the compressor, or reading the gzip header
    | Copy            // io.Copy of the payload
    | CloseInput      // inputFile.Close()
    | FlushCodec      // compressor Flush
    | CloseCodec      // compressor or reader Close
    | WriteChecksum   // footer CRC32 (xflate mode)
    | WriteSize       // footer ISIZE (xflate mode)

  /** The step at which an operation returned an error. */
  datatype Step =
    | StatInput       // os.Stat(filename)
    | OpenInput       // os.Open(filename)
    | OutputExists    // "output file already exists"
    | CreateTemp      // renameio.TempFile
    | Stage(phase: Phase)
    | FlushOutput     // outputBuffer.Flush()
    | Replace         // CloseAtomicallyReplace
    | StatOutput      // os.Stat(outputFilename) after the replace
    | RemoveInput     // os.Remove(filename)

  /** Errors returned after the destination was replaced. */
  predicate AfterPromotion(s: Step)
  {
    s == StatOutput || s == RemoveInput
  }

  /** How the gzip reader refuses its input. */
  datatype DecodeFailure = HeaderInvalid | PayloadCorrupt

  /** Everything outside the core: which operating-system call fails (at
      most one; the rest succeed), how many bytes the staged file can take,
      the input's modification time, and the external codecs (the gzip
      writer and reader of klauspost/compress and the xflate writer of
      dsnet/compress), given as functions of their whole input. */
  datatype Env = Env(
    fault: Option<Step>,
    room: nat,
    modUnix: string -> int,
    gzipEncode: (int, Header, seq<byte>) -> seq<byte>,
    xflateEncode: (int, seq<byte>) -> seq<byte>,
    gzipDecode: seq<byte> -> Result<seq<byte>, DecodeFailure>)

  predicate Fails(env: Env, s: Step)
  {
    env.fault == Some(s)
  }

  /** The failing step is one of the given phases of the transformation. */
  predicate FailsIn(env: Env, phases: set<Phase>)
  {
    env.fault.Some? && env.fault.value.Stage? && env.fault.value.phase in phases
  }

  /** The filesystem after an operation, and the error it returned. */
  datatype Outcome = Outcome(files: map<string, seq<byte>>, err: Option<Step>)

  /** The checks before anything is staged (the source exists and opens,
      the destination is free unless forced) and the creation of the
      temporary file: the first error, or None. */
  function Admit(files: map<string, seq<byte>>, input: string, output: string, force: bool,
                 fault: Option<Step>): (e: Option<Step>)
    ensures e.None? <==> && input in files && (force || output !in files)
                         && fault !in {Some(StatInput), Some(OpenInput), Some(CreateTemp)}
    // A missing source, or a failing stat or open of it, is reported first.
    ensures input !in files ==> e == Some(StatInput)
    ensures input in files && fault in {Some(StatInput), Some(OpenInput)} ==> e == fault
    // Without force an existing destination is refused before anything is staged.
    ensures e == Some(OutputExists) <==> && input in files && fault !in {Some(StatInput), Some(OpenInput)}
                                         && !force && output in files
    ensures input in files && (force || output !in files) && fault == Some(CreateTemp) ==> e == fault
    // Any other error is the failing step itself.
    ensures e.Some? ==> e == fault || e == Some(OutputExists) || (input !in files && e == Some(StatInput))
  {
    if input !in files || fault == Some(StatInput) then Some(StatInput)
    else if fault == Some(OpenInput) then Some(OpenInput)
    else if !force && output in files then Some(OutputExists)
    else if fault == Some(CreateTemp) then Some(CreateTemp)
    else None
  }

  /** Everything after a successful transformation: flush the buffer into
      the temporary file, replace the destination with it, stat the
      destination, and remove the source unless `keep`. */
  function Promote(files: map<string, seq<byte>>, input: string, output: string, keep: bool,
                   fault: Option<Step>, data: seq<byte>): (o: Outcome)
    ensures o.err.Some? && !AfterPromotion(o.err.value) ==> o.files == files
    ensures o.err.None? || AfterPromotion(o.err.value) ==>
              o.files == (if o.err.None? && !keep then files[output := data] - {input}
                          else files[output := data])
    ensures o.err.None? <==> fault !in {Some(FlushOutput), Some(Replace), Some(StatOutput)}
                             && (keep || fault != Some(RemoveInput))
    // Each failing step is reported, and only a failing step is.
    ensures fault in {Some(FlushOutput), Some(Replace)} ==> o == Outcome(files, fault)
    ensures fault == Some(StatOutput) ==> o == Outcome(files[output := data], fault)
    ensures fault == Some(RemoveInput) && !keep ==> o == Outcome(files[output := data], fault)
    ensures o.err.Some? ==> o.err == fault
  {
    if fault == Some(FlushOutput) then Outcome(files, Some(FlushOutput))
    else if fault == Some(Replace) then Outcome(files, Some(Replace))
    else
      var promoted := files[output := data];
      if fault == Some(StatOutput) then Outcome(promoted, Some(StatOutput))
      else if keep then Outcome(promoted, None)
      else if fault == Some(RemoveInput) then Outcome(promoted, Some(RemoveInput))
      else Outcome(promoted - {input}, None)
  }

  /** The whole protocol.  `stage` maps the source's contents to the bytes
      that reach the staged file, or to the phase that failed. */
  function Run(files: map<string, seq<byte>>, input: string, output: string, keep: bool, force: bool,
               fault: Option<Step>, stage: seq<byte> -> Result<seq<byte>, Phase>): (o: Outcome)
    // Every error before the replace leaves the filesystem as it was.
    ensures o.err.Some? && !AfterPromotion(o.err.value) ==> o.files == files
    ensures !force && input in files && output in files && fault !in {Some(StatInput), Some(OpenInput)}
            ==> o == Outcome(files, Some(OutputExists))
    // Each failing step is reported when reached, with nothing changed before the replace.
    ensures input !in files ==> o == Outcome(files, Some(StatInput))
    ensures input in files && fault in {Some(StatInput), Some(OpenInput)} ==> o == Outcome(files, fault)
    ensures input in files && (force || output !in files) && fault == Some(CreateTemp) ==> o == Outcome(files, fault)
    ensures Admit(files, input, output, force, fault).None? && stage(files[input]).Err?
            ==> o == Outcome(files, Some(Stage(stage(files[input]).error)))
    ensures Admit(files, input, output, force, fault).None? && stage(files[input]).Ok?
            && fault in {Some(FlushOutput), Some(Replace)}
            ==> o == Outcome(files, fault)
    ensures Admit(files, input, output, force, fault).None? && stage(files[input]).Ok?
            && (fault == Some(StatOutput) || (fault == Some(RemoveInput) && !keep))
            ==> o == Outcome(files[output := stage(files[input]).value], fault)
    // Conversely, the outcome is determined: the first check that fails,
    // else the stage's failure, else promotion, so a step that is not
    // reached is never reported.
    ensures Admit(files, input, output, force, fault).Some?
            ==> o == Outcome(files, Admit(files, input, output, force, fault))
    ensures Admit(files, input, output, force, fault).None? && stage(files[input]).Ok?
            ==> o == Promote(files, input, output, keep, fault, stage(files[input]).value)
    // An error that is neither the guard, a missing source nor a stage
    // failure is the failing step itself.
    ensures o.err.Some? && o.err != Some(OutputExists) && !o.err.value.Stage?
            ==> o.err == fault || (input !in files && o.err == Some(StatInput))
    // The destination changes only by promotion of the complete staged output,
    // and the source goes only after that, only without keep, and only on success.
    ensures o.err.None? || AfterPromotion(o.err.value) ==>
              && input in files
              && (force || output !in files)
              && stage(files[input]).Ok?
              && o.files == (var promoted := files[output := stage(files[input]).value];
                             if o.err.None? && !keep then promoted - {input} else promoted)
    ensures input in files && input !in o.files ==> !keep && o.err.None?
    ensures keep && input in files ==> input in o.files
  {
    var e := Admit(files, input, output, force, fault);
    if e.Some? then Outcome(files, e)
    else match stage(files[input])
      case Err(phase) => Outcome(files, Some(Stage(phase)))
      case Ok(data) => Promote(files, input, output, keep, fault, data)
  }

  /** Stat, open, the overwrite guard and renameio.TempFile. */
  method Prepare(fs: FileSystem, fault: Option<Step>, input: string, output: string, force: bool)
      returns (err: Option<Step>)
    requires fs.pending == None
    modifies fs
    ensures fs.files == old(fs.files)
    ensures err == Admit(fs.files, input, output, force, fault)
    ensures fs.pending == if err.None? then Some(Pending(output, [])) else None
  {
    var found := fs.Stat(input);
    if !found || fault == Some(StatInput) {
      return Some(StatInput);
    }
    if fault == Some(OpenInput) {
      return Some(OpenInput);
    }
    if !force {
      var taken := fs.Stat(output);
      if taken {
        return Some(OutputExists);
      }
    }
    if fault == Some(CreateTemp) {
      return Some(CreateTemp);
    }
    fs.CreateTemp(output);
    return None;
  }

  /** From `outputBuffer.Flush()` to the end, with the deferred Cleanup. */
  method Finish(fs: FileSystem, fault: Option<Step>, input: string, output: string, keep: bool,
                data: seq<byte>) returns (err: Option<Step>)
    requires fs.pending == Some(Pending(output, [])) && input in fs.files
    modifies fs
    ensures fs.pending == None
    ensures Outcome(fs.files, err) == Promote(old(fs.files), input, output, keep, fault, data)
  {
    if fault == Some(FlushOutput) {
      fs.Cleanup();
      return Some(FlushOutput);
    }
    fs.WritePending(data);
    assert fs.pending.value.data == data;
    if fault == Some(Replace) {
      fs.Cleanup();
      return Some(Replace);
    }
    fs.CloseAtomicallyReplace();
    var promoted := fs.Stat(output);
    if !promoted || fault == Some(StatOutput) {
      return Some(StatOutput);
    }
    if !keep {
      if fault == Some(RemoveInput) {
        return Some(RemoveInput);
      }
      fs.Remove(input);
    }
    return None;
  }

  /** With no failing step, an existing source, a free (or forced)
      destination and a transformation that succeeds, the operation
      succeeds. */
  lemma FaultFreeSucceeds(files: map<string, seq<byte>>, input: string, output: string, keep: bool, force: bool,
                          stage: seq<byte> -> Result<seq<byte>, Phase>)
    requires input in files && (force || output !in files) && stage(files[input]).Ok?
    ensures Run(files, input, output, keep, force, None, stage).err == None
  {
  }

  // ---------------------------------------------------------------------
  // Paths

  /** `strings.HasSuffix`. */
  function HasSuffix(s: string, suffix: string): (b: bool)
    ensures b <==> |suffix| <= |s| && forall i :: 0 <= i < |suffix| ==> s[|s| - |suffix| + i] == suffix[i]
  {
    |suffix| <= |s| && s[|s| - |suffix|..] == suffix
  }

  /** `strings.HasPrefix`. */
  function HasPrefix(s: string, prefix: string): (b: bool)
    ensures b <==> |prefix| <= |s| && forall i :: 0 <= i < |prefix| ==> s[i] == prefix[i]
  {
    |prefix| <= |s| && s[..|prefix|] == prefix
  }

  /** `strings.TrimSuffix`: one trailing occurrence removed, if present. */
  function TrimSuffix(s: string, suffix: string): (r: string)
    ensures HasSuffix(s, suffix) ==> r + suffix == s
    ensures !HasSuffix(s, suffix) ==> r == s
  {
    if HasSuffix(s, suffix) then s[..|s| - |suffix|] else s
  }

  /** `p` without its trailing slashes. */
  function TrimTrailingSlashes(p: string): (r: string)
    ensures r <= p
    ensures r == [] || r[|r| - 1] != '/'
    ensures forall i :: |r| <= i < |p| ==> p[i] == '/'
    decreases |p|
  {
    if p != [] && p[|p| - 1] == '/' then TrimTrailingSlashes(p[..|p| - 1]) else p
  }

  /** The part of `p` after its last slash. */
  function LastElement(p: string): (r: string)
    ensures '/' !in r
    ensures |r| <= |p| && r == p[|p| - |r|..]
    ensures p != [] && p[|p| - 1] != '/' ==> r != []
    // Nothing but a slash can precede it.
    ensures |r| < |p| ==> p[|p| - |r| - 1] == '/'
    decreases |p|
  {
    if p == [] || p[|p| - 1] == '/' then [] else LastElement(p[..|p| - 1]) + [p[|p| - 1]]
  }

  /** `filepath.Base` on a slash-separated path. */
  function BaseName(path: string): (r: string)
    ensures r != ""
    ensures r == "/" || '/' !in r
    ensures path == "" ==> r == "."
    // A path of slashes alone gives "/".
    ensures path != "" && TrimTrailingSlashes(path) == "" ==> r == "/"
    // Otherwise the last element: the longest slash-free suffix of the
    // path without its trailing slashes.
    ensures var t := TrimTrailingSlashes(path);
            t != "" ==> && |r| <= |t| && r == t[|t| - |r|..] && '/' !in r
                        && (|r| == |t| || t[|t| - |r| - 1] == '/')
  {
    if path == "" then "."
    else
      var t := TrimTrailingSlashes(path);
      if t == "" then "/" else LastElement(t)
  }
}
