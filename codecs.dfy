/** Stand-ins for the external codecs and the `io.Copy` loops that feed
    them.  The compressors (the gzip.Writer of klauspost/compress and the
    xflate.Writer of dsnet/compress) are not modelled inside: each one
    accumulates what it is given and, when closed, writes to its output the
    encoding of all of it, given as a function parameter.  What is proved
    here is what the transcoders themselves guarantee: every input byte
    reaches the compressor (and, in xflate mode, the CRC-32 hasher) once
    and in order, and decompressed bytes reach the output in order up to
    the first short write. */
module Codecs {
  import opened Wire
  import opened GzipHeader
  import opened Output
  import opened Crc32

  /** Size of the pieces in which io.Copy moves the input (bufio.Reader's
      default buffer). */
  const ReadChunk: nat := 4096

  /** The header of a fresh gzip.Writer: no extra field, no name, no
      comment, the zero time, OS unknown. */
  const DefaultHeader: Header := Header(None, "", "", ZeroTimeUnix, OSUnknown)

  /** gzip.Writer: its Header fields (Name, ModTime) are set by the caller
      before the first write. */
  class GzipWriter {
    const out: Sink
    const level: int
    var header: Header
    var consumed: seq<byte>

    constructor (out: Sink, level: int)
      ensures this.out == out && this.level == level
      ensures header == DefaultHeader && consumed == []
    {
      this.out := out;
      this.level := level;
      header := DefaultHeader;
      consumed := [];
    }

    method Write(p: seq<byte>)
      modifies this
      ensures consumed == old(consumed) + p
      ensures header == old(header)
    {
      consumed := consumed + p;
    }

    /** Close: the gzip member for everything consumed reaches `out`;
        `ok` is false on a short write. */
    method Close(encode: (int, Header, seq<byte>) -> seq<byte>) returns (ok: bool)
      requires out.Valid()
      modifies out
      ensures out.Valid()
      ensures ok == (|encode(level, header, consumed)| <= old(out.Room()))
      ensures out.data == old(out.data) + Take(encode(level, header, consumed), old(out.Room()))
    {
      var n;
      n, ok := out.Write(encode(level, header, consumed));
    }
  }

  /** xflate.Writer: a raw DEFLATE stream with periodic sync points. */
  class XflateWriter {
    const out: Sink
    const level: int
    var consumed: seq<byte>

    constructor (out: Sink, level: int)
      ensures this.out == out && this.level == level && consumed == []
    {
      this.out := out;
      this.level := level;
      consumed := [];
    }

    method Write(p: seq<byte>)
      modifies this
      ensures consumed == old(consumed) + p
    {
      consumed := consumed + p;
    }

    /** Close: the compressed stream for everything consumed reaches
        `out`; `ok` is false on a short write. */
    method Close(encode: (int, seq<byte>) -> seq<byte>) returns (ok: bool)
      requires out.Valid()
      modifies out
      ensures out.Valid()
      ensures ok == (|encode(level, consumed)| <= old(out.Room()))
      ensures out.data == old(out.data) + Take(encode(level, consumed), old(out.Room()))
    {
      var n;
      n, ok := out.Write(encode(level, consumed));
    }
  }

  /** `io.Copy(zw, bufio.NewReader(inputFile))`: the whole input reaches
      the compressor, in order. */
  method CopyInto(zw: GzipWriter, input: seq<byte>)
    modifies zw
    ensures zw.consumed == old(zw.consumed) + input
    ensures zw.header == old(zw.header)
  {
    var i := 0;
    while i < |input|
      invariant 0 <= i <= |input|
      invariant zw.consumed == old(zw.consumed) + input[..i]
      invariant zw.header == old(zw.header)
    {
      var n := Min(ReadChunk, |input| - i);
      assert input[..i + n] == input[..i] + input[i..i + n];
      zw.Write(input[i..i + n]);
      i := i + n;
    }
    assert input[..i] == input;
  }

  /** `io.Copy(io.MultiWriter(xw, crc), bufio.NewReader(inputFile))`: every
      piece goes to the compressor and then to the hasher, and `written`
      counts the bytes copied. */
  method CopyFanOut(xw: XflateWriter, crc: Hasher, input: seq<byte>) returns (written: nat)
    requires crc.Valid()
    modifies xw, crc
    ensures crc.Valid()
    ensures xw.consumed == old(xw.consumed) + input
    ensures crc.seen == old(crc.seen) + input
    ensures written == |input|
  {
    written := 0;
    while written < |input|
      invariant 0 <= written <= |input|
      invariant crc.Valid()
      invariant xw.consumed == old(xw.consumed) + input[..written]
      invariant crc.seen == old(crc.seen) + input[..written]
    {
      var n := Min(ReadChunk, |input| - written);
      AppendPiece(old(xw.consumed), input, written, written + n);
      AppendPiece(old(crc.seen), input, written, written + n);
      MultiWrite(xw, crc, input[written..written + n]);
      written := written + n;
    }
    assert input[..written] == input;
  }

  /** `Write` of `io.MultiWriter(xw, crc)`: the piece goes to the
      compressor, then to the hasher. */
  method MultiWrite(xw: XflateWriter, crc: Hasher, piece: seq<byte>)
    requires crc.Valid()
    modifies xw, crc
    ensures crc.Valid()
    ensures xw.consumed == old(xw.consumed) + piece
    ensures crc.seen == old(crc.seen) + piece
  {
    xw.Write(piece);
    crc.Write(piece);
  }

  /** `io.Copy(outputBuffer, zr)`: decompressed bytes reach the output in
      pieces until one does not fit; `ok` is false exactly when the whole
      does not fit, and then the output holds the prefix that did. */
  method CopyOut(w: Sink, data: seq<byte>) returns (ok: bool)
    requires w.Valid()
    modifies w
    ensures w.Valid()
    ensures ok == (|data| <= old(w.Room()))
    ensures w.data == old(w.data) + Take(data, old(w.Room()))
  {
    ghost var room := w.Room();
    var i := 0;
    while i < |data|
      invariant 0 <= i <= |data| && i <= room
      invariant w.Valid() && w.Room() == room - i
      invariant w.data == old(w.data) + data[..i]
    {
      var n := Min(ReadChunk, |data| - i);
      var piece := data[i..i + n];
      assert data[..i + n] == data[..i] + piece;
      var count, wrote := w.Write(piece);
      if !wrote {
        TakeSplit(data, i, n, room);
        return false;
      }
      i := i + n;
    }
    assert data[..i] == data;
    return true;
  }
}
