/** XflateCompressFile of xflate.go: the gzip member is assembled by hand
    as the header of writeGzipHeader, the xflate stream, and the CRC-32 and
    ISIZE trailer of section 2.3.1 of RFC 1952, with the checksum and size
    accumulated by fanning every input byte out to the compressor and to a
    CRC-32 hasher.  Staging and promotion follow module Transcode. */
module Xflate {
  import opened Wire
  import opened GzipHeader
  import opened Output
  import opened Crc32
  import opened HeaderWriter
  import opened Files
  import opened Transcode
  import opened Codecs

  const XflateComment: string := "Encoded using XFLATE"

  /** The header of an xflate member: always the comment and OS unknown;
      Name (the base name of the input) and ModTime only when `named`. */
  function XflateHeader(named: bool, filename: string, modUnix: int): (h: Header)
    ensures h.extra == None && h.comment == XflateComment && h.os == OSUnknown
    ensures h.name != "" <==> named
    ensures named ==> h.name == BaseName(filename) && h.modUnix == modUnix
    ensures !named ==> h.modUnix == ZeroTimeUnix
  {
    var h := Header(None, "", XflateComment, ZeroTimeUnix, OSUnknown);
    if named then h.(name := BaseName(filename), modUnix := modUnix) else h
  }

  /** CRC32 and ISIZE, each little-endian. */
  function Trailer(input: seq<byte>): (t: seq<byte>)
    ensures |t| == 8
    ensures DecodeLe32(t[..4]) == Checksum(input) as int
    ensures DecodeLe32(t[4..]) == |input| % TwoTo32
  {
    var crc := Le32(Checksum(input) as int);
    var size := Le32(Uint32(|input|));
    assert (crc + size)[..4] == crc && (crc + size)[4..] == size;
    crc + size
  }

  /** The transformation: the staged file receives header, xflate stream
      and trailer, unless the header cannot be encoded or a part does not
      fit in the room the file has, or a step fails. */
  function XflateStage(env: Env, level: int, header: Header, input: seq<byte>): (r: Result<seq<byte>, Phase>)
    ensures r.Ok? ==> && r.value == EncodeHeader(header).bytes + env.xflateEncode(level, input) + Trailer(input)
                      && |r.value| <= env.room
    ensures !Encodable(header) ==> r == Err(WriteHeader)
    ensures r.Err? ==> Fails(env, Stage(r.error)) || r.error in {WriteHeader, CloseCodec, WriteChecksum, WriteSize}
    ensures (&& env.fault.None? && Encodable(header)
             && |EncodeHeader(header).bytes + env.xflateEncode(level, input) + Trailer(input)| <= env.room)
            ==> r.Ok?
    // The header is written first; a header that does not fit ends the stage there.
    ensures |EncodeHeader(header).bytes| > env.room ==> r == Err(WriteHeader)
    ensures Fails(env, Stage(WriteHeader)) ==> r == Err(WriteHeader)
    ensures Encodable(header) && |EncodeHeader(header).bytes| <= env.room && !Fails(env, Stage(WriteHeader))
            ==> r == AfterHeader(env, level, EncodeHeader(header).bytes, input)
    ensures && Encodable(header) && |EncodeHeader(header).bytes| <= env.room
            && FailsIn(env, {NewCodec, Copy, CloseInput, FlushCodec, CloseCodec})
            ==> r == Err(env.fault.value.phase)
  {
    var head := EncodeHeader(header);
    if head.err.Some? || |head.bytes| > env.room || Fails(env, Stage(WriteHeader)) then Err(WriteHeader)
    else AfterHeader(env, level, head.bytes, input)
  }

  /** The part of XflateStage after a header `head` that fitted. */
  function AfterHeader(env: Env, level: int, head: seq<byte>, input: seq<byte>): (r: Result<seq<byte>, Phase>)
    ensures r.Ok? ==> r.value == head + env.xflateEncode(level, input) + Trailer(input) && |r.value| <= env.room
    ensures r.Err? ==> Fails(env, Stage(r.error)) || r.error in {CloseCodec, WriteChecksum, WriteSize}
    // Every phase up to the compressor's Close is reached, so a failing one is the error.
    ensures FailsIn(env, {NewCodec, Copy, CloseInput, FlushCodec, CloseCodec}) ==> r == Err(env.fault.value.phase)
    // Otherwise the first part that does not fit or whose write fails: the
    // stream, the CRC32 word, the ISIZE word.
    ensures !FailsIn(env, {NewCodec, Copy, CloseInput, FlushCodec, CloseCodec}) ==>
              var body := |head| + |env.xflateEncode(level, input)|;
              && (body > env.room ==> r == Err(CloseCodec))
              && (body <= env.room && (env.room < body + 4 || Fails(env, Stage(WriteChecksum)))
                  ==> r == Err(WriteChecksum))
              && (body + 4 <= env.room && !Fails(env, Stage(WriteChecksum))
                  && (env.room < body + 8 || Fails(env, Stage(WriteSize)))
                  ==> r == Err(WriteSize))
              && (body + 8 <= env.room && !FailsIn(env, {WriteChecksum, WriteSize})
                  ==> r == Ok(head + env.xflateEncode(level, input) + Trailer(input)))
  {
    if Fails(env, Stage(NewCodec)) then Err(NewCodec)
    else if Fails(env, Stage(Copy)) then Err(Copy)
    else if Fails(env, Stage(CloseInput)) then Err(CloseInput)
    else if Fails(env, Stage(FlushCodec)) then Err(FlushCodec)
    else
      var body := head + env.xflateEncode(level, input);
      if Fails(env, Stage(CloseCodec)) || |body| > env.room then Err(CloseCodec)
      else if |body| + 4 > env.room || Fails(env, Stage(WriteChecksum)) then Err(WriteChecksum)
      else if |body| + 8 > env.room || Fails(env, Stage(WriteSize)) then Err(WriteSize)
      else Ok(body + Trailer(input))
  }

  /** From writeGzipHeader to the ISIZE footer, writing into the buffer
      over the staged file. */
  method XflateCompressing(out: Sink, env: Env, level: int, named: bool, filename: string, input: seq<byte>)
      returns (r: Result<seq<byte>, Phase>)
    requires out.Valid() && out.data == [] && out.capacity == env.room
    modifies out
    ensures r == XflateStage(env, level, XflateHeader(named, filename, env.modUnix(filename)), input)
    ensures r.Ok? ==> out.data == r.value
  {
    var header := Header(None, "", XflateComment, ZeroTimeUnix, OSUnknown);
    if named {
      header := header.(name := BaseName(filename), modUnix := env.modUnix(filename));
    }
    assert header == XflateHeader(named, filename, env.modUnix(filename));
    ghost var head := EncodeHeader(header);
    var n, headerErr := WriteGzipHeader(out, header);
    if headerErr.Some? || Fails(env, Stage(WriteHeader)) {
      assert head.err.Some? || |head.bytes| > env.room || Fails(env, Stage(WriteHeader));
      return Err(WriteHeader);
    }
    assert out.data == head.bytes;
    r := XflatePayload(out, env, level, input);
  }

  /** From `xflate.NewWriter` to the ISIZE footer, after a header that was
      written in full. */
  method XflatePayload(out: Sink, env: Env, level: int, input: seq<byte>) returns (r: Result<seq<byte>, Phase>)
    requires out.Valid() && out.capacity == env.room
    modifies out
    ensures r == AfterHeader(env, level, old(out.data), input)
    ensures r.Ok? ==> out.data == r.value
  {
    ghost var head := out.data;
    var failed, sum, written := XflateStream(out, env, level, input);
    if failed.Some? {
      return Err(failed.value);
    }
    ghost var body := head + env.xflateEncode(level, input);
    failed := WriteFooter(out, env.fault, sum, written);
    if failed.Some? {
      return Err(failed.value);
    }
    assert out.data == body + Trailer(input);
    return Ok(out.data);
  }

  /** From `xflate.NewWriter` to `xw.Close()`: the stream reaches the
      buffer, and the hasher and the copy count give the checksum and the
      length of the input. */
  method XflateStream(out: Sink, env: Env, level: int, input: seq<byte>)
      returns (failed: Option<Phase>, sum: bv32, written: nat)
    requires out.Valid()
    modifies out
    ensures out.Valid()
    ensures failed == (if Fails(env, Stage(NewCodec)) then Some(NewCodec)
                       else if Fails(env, Stage(Copy)) then Some(Copy)
                       else if Fails(env, Stage(CloseInput)) then Some(CloseInput)
                       else if Fails(env, Stage(FlushCodec)) then Some(FlushCodec)
                       else if Fails(env, Stage(CloseCodec)) || |env.xflateEncode(level, input)| > old(out.Room())
                       then Some(CloseCodec)
                       else None)
    ensures failed.None? ==> && out.data == old(out.data) + env.xflateEncode(level, input)
                             && sum == Checksum(input) && written == |input|
  {
    if Fails(env, Stage(NewCodec)) {
      return Some(NewCodec), 0, 0;
    }
    var xw := new XflateWriter(out, level);
    var crc := new Hasher();
    written := CopyFanOut(xw, crc, input);
    assert xw.consumed == input && crc.seen == input;
    if Fails(env, Stage(Copy)) {
      return Some(Copy), 0, 0;
    }
    if Fails(env, Stage(CloseInput)) {
      return Some(CloseInput), 0, 0;
    }
    if Fails(env, Stage(FlushCodec)) {
      return Some(FlushCodec), 0, 0;
    }
    var closed := xw.Close(env.xflateEncode);
    if !closed || Fails(env, Stage(CloseCodec)) {
      return Some(CloseCodec), 0, 0;
    }
    sum := crc.Sum32();
    failed := None;
  }


  /** The two `binary.Write` calls of the footer: CRC32, then ISIZE as
      `uint32(written)`, each little-endian; the phase of the first that
      does not fit or fails. */
  method WriteFooter(out: Sink, fault: Option<Step>, sum: bv32, written: nat) returns (failed: Option<Phase>)
    requires out.Valid()
    modifies out
    ensures out.Valid()
    ensures failed == (if old(out.Room()) < 4 || fault == Some(Stage(WriteChecksum)) then Some(WriteChecksum)
                       else if old(out.Room()) < 8 || fault == Some(Stage(WriteSize)) then Some(WriteSize)
                       else None)
    ensures failed.None? ==> out.data == old(out.data) + Le32(sum as int) + Le32(Uint32(written))
  {
    var count, ok := out.Write(Le32(sum as int));
    if !ok || fault == Some(Stage(WriteChecksum)) {
      return Some(WriteChecksum);
    }
    count, ok := out.Write(Le32(Uint32(written)));
    if !ok || fault == Some(Stage(WriteSize)) {
      return Some(WriteSize);
    }
    return None;
  }

  /** XflateCompressFile: its effect on the filesystem and its error are
      exactly those of the protocol with output path `filename + suffix`,
      and the temporary file is gone whatever happened. */
  method XflateCompressFile(fs: FileSystem, env: Env, filename: string, suffix: string, level: int,
                            keep: bool, force: bool, named: bool) returns (err: Option<Step>)
    requires fs.pending == None
    modifies fs
    ensures fs.pending == None
    ensures Outcome(fs.files, err)
            == Run(old(fs.files), filename, filename + suffix, keep, force, env.fault,
                   input => XflateStage(env, level, XflateHeader(named, filename, env.modUnix(filename)), input))
  {
    var outputFilename := filename + suffix;
    err := Prepare(fs, env.fault, filename, outputFilename, force);
    if err.Some? {
      return;
    }
    var input := fs.ReadAll(filename);
    var outputBuffer := new Sink(env.room);
    var staged := XflateCompressing(outputBuffer, env, level, named, filename, input);
    if staged.Err? {
      fs.Cleanup();
      return Some(Stage(staged.error));
    }
    err := Finish(fs, env.fault, filename, outputFilename, keep, staged.value);
  }

  /** A promoted xflate member (XflateStage of the header XflateHeader
      gives, or of any other) reads back as a gzip member: its header
      parses to that header (with MTIME truncated to 32 bits), the
      xflate stream follows, and the last eight bytes decode to the CRC-32
      of the input and its length modulo 2^32. */
  lemma MemberLayout(env: Env, level: int, h: Header, input: seq<byte>)
    requires XflateStage(env, level, h, input).Ok?
    ensures var m := XflateStage(env, level, h, input).value;
            && |m| >= 18
            && ParseHeader(m) == Some((h.(modUnix := MTime(h)), m[|EncodeHeader(h).bytes|..]))
            && m[|EncodeHeader(h).bytes|..|m| - 8] == env.xflateEncode(level, input)
            && DecodeLe32(m[|m| - 8..|m| - 4]) == Checksum(input) as int
            && DecodeLe32(m[|m| - 4..]) == |input| % TwoTo32
  {
    var head := EncodeHeader(h).bytes;
    var stream := env.xflateEncode(level, input);
    var t := Trailer(input);
    assert XflateStage(env, level, h, input).value == head + stream + t;
    TrailerSlices(head, stream, t);
    HeaderRoundTrip(h, stream + t);
  }


  /** Without a name the header is always encodable and fixed: 10 bytes of
      prefix and the 21 of the comment, with the MTIME of the zero time. */
  lemma UnnamedHeader(filename: string, modUnix: int)
    ensures var h := XflateHeader(false, filename, modUnix);
            && Encodable(h)
            && |EncodeHeader(h).bytes| == 31
            && MTime(h) == 0x886E_0900
  {
    var h := XflateHeader(false, filename, modUnix);
    assert IsLatin1(XflateComment) by {
      forall i | 0 <= i < |XflateComment|
        ensures Latin1Rune(XflateComment[i])
      {
      }
    }
    EncodeHeaderLayout(h);
    ZeroTimeMTime(h);
  }

  /** A base name with a rune that Latin-1 cannot hold makes the header
      write fail when `named`; nothing is promoted. */
  lemma NonLatin1NameRefused(env: Env, level: int, filename: string, modUnix: int, input: seq<byte>)
    requires !IsLatin1(BaseName(filename))
    ensures XflateStage(env, level, XflateHeader(true, filename, modUnix), input) == Err(WriteHeader)
  {
  }
}
