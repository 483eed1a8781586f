/** writeGzipHeader, writeBytes and writeString of xflate.go: the gzip
    header written field by field through successive `Write` calls.  Each
    method is specified by the emission of module GzipHeader: on a writer
    with `room` free bytes it stores the part of the emission that fits,
    reports a short write if the emission did not fit, and otherwise
    reports the encoding error that stopped it (if any). */
module HeaderWriter {
  import opened Wire
  import opened GzipHeader
  import opened Output

  /** `after` is `before` plus what a writer with `room` free bytes accepts
      of `e`; `err` is the short write or the encoding error. */
  ghost predicate Emitted(before: seq<byte>, after: seq<byte>, room: nat, e: Emission, err: Option<GzipError>)
  {
    && after == before + Take(e.bytes, room)
    && err == (if |e.bytes| > room then Some(ShortWrite) else e.err)
  }

  /** A second emission written after a first one that succeeded. */
  lemma EmittedThen(d0: seq<byte>, d1: seq<byte>, d2: seq<byte>, room: nat, a: Emission, b: Emission, err: Option<GzipError>)
    requires Emitted(d0, d1, room, a, None)
    requires |a.bytes| <= room
    requires Emitted(d1, d2, room - |a.bytes|, b, err)
    ensures Emitted(d0, d2, room, Then(a, b), err)
  {
    TakeAppend(a.bytes, b.bytes, room);
  }

  /** After a failure nothing more is written. */
  lemma EmittedStop(d0: seq<byte>, d1: seq<byte>, room: nat, a: Emission, b: Emission, e: GzipError)
    requires Emitted(d0, d1, room, a, Some(e))
    ensures Emitted(d0, d1, room, Then(a, b), Some(e))
  {
    TakeAppend(a.bytes, b.bytes, room);
  }

  /** Once a field has failed, the later fields write nothing. */
  lemma TailStops(d0: seq<byte>, d1: seq<byte>, room: nat, e: Emission, h: Header, x: GzipError)
    requires Emitted(d0, d1, room, e, Some(x))
    ensures Emitted(d0, d1, room, AddComment(h, e), Some(x))
    ensures Emitted(d0, d1, room, AddComment(h, AddName(h, e)), Some(x))
  {
    if h.name != "" {
      EmittedStop(d0, d1, room, e, Field(StringField(h.name)), x);
    }
    if h.comment != "" {
      EmittedStop(d0, d1, room, e, Field(StringField(h.comment)), x);
      EmittedStop(d0, d1, room, AddName(h, e), Field(StringField(h.comment)), x);
    }
  }

  /** A short write of the 10-byte prefix ends the header. */
  lemma PrefixFailed(d0: seq<byte>, d1: seq<byte>, room: nat, h: Header)
    requires d1 == d0 + Take(Prefix(h), room) && room < 10
    ensures Emitted(d0, d1, room, EncodeHeader(h), Some(ShortWrite))
  {
    var e0 := Emission(Prefix(h), None);
    if h.extra.Some? {
      EmittedStop(d0, d1, room, e0, Field(ExtraField(h.extra.value)), ShortWrite);
    }
    TailStops(d0, d1, room, AddExtra(h, e0), h, ShortWrite);
  }

  /** The extra field written after the prefix. */
  lemma ExtraWritten(d0: seq<byte>, d1: seq<byte>, d2: seq<byte>, room: nat, h: Header, err: Option<GzipError>)
    requires h.extra.Some?
    requires Emitted(d0, d1, room, Emission(Prefix(h), None), None)
    requires Emitted(d1, d2, room - 10, Field(ExtraField(h.extra.value)), err)
    ensures Emitted(d0, d2, room, AddExtra(h, Emission(Prefix(h), None)), err)
    ensures err.Some? ==> Emitted(d0, d2, room, EncodeHeader(h), err)
  {
    var e1 := AddExtra(h, Emission(Prefix(h), None));
    EmittedThen(d0, d1, d2, room, Emission(Prefix(h), None), Field(ExtraField(h.extra.value)), err);
    if err.Some? {
      TailStops(d0, d2, room, e1, h, err.value);
    }
  }

  /** The name field written after the prefix and the extra field. */
  lemma NameWritten(d0: seq<byte>, d1: seq<byte>, d2: seq<byte>, room: nat, h: Header, err: Option<GzipError>)
    requires h.name != ""
    requires Emitted(d0, d1, room, AddExtra(h, Emission(Prefix(h), None)), None)
    requires Emitted(d1, d2, room - |AddExtra(h, Emission(Prefix(h), None)).bytes|, Field(StringField(h.name)), err)
    ensures Emitted(d0, d2, room, AddName(h, AddExtra(h, Emission(Prefix(h), None))), err)
    ensures err.Some? ==> Emitted(d0, d2, room, EncodeHeader(h), err)
  {
    var e1 := AddExtra(h, Emission(Prefix(h), None));
    EmittedThen(d0, d1, d2, room, e1, Field(StringField(h.name)), err);
    if err.Some? {
      TailStops(d0, d2, room, AddName(h, e1), h, err.value);
    }
  }

  /** The comment field written last. */
  lemma CommentWritten(d0: seq<byte>, d1: seq<byte>, d2: seq<byte>, room: nat, h: Header, err: Option<GzipError>)
    requires h.comment != ""
    requires Emitted(d0, d1, room, AddName(h, AddExtra(h, Emission(Prefix(h), None))), None)
    requires Emitted(d1, d2, room - |AddName(h, AddExtra(h, Emission(Prefix(h), None))).bytes|, Field(StringField(h.comment)), err)
    ensures Emitted(d0, d2, room, EncodeHeader(h), err)
  {
    EmittedThen(d0, d1, d2, room, AddName(h, AddExtra(h, Emission(Prefix(h), None))), Field(StringField(h.comment)), err);
  }

  /** writeBytes: XLEN (little-endian) and the extra bytes, refused with
      nothing written when longer than 0xFFFF. */
  method WriteBytes(w: Sink, b: seq<byte>) returns (err: Option<GzipError>)
    requires w.Valid()
    modifies w
    ensures w.Valid()
    ensures Emitted(old(w.data), w.data, old(w.Room()), Field(ExtraField(b)), err)
  {
    if |b| > MaxExtra {
      return Some(ExtraTooLarge);
    }
    ghost var room := w.Room();
    var n, ok := w.Write(Le16(|b|));
    TakeAppend(Le16(|b|), b, room);
    if !ok {
      return Some(ShortWrite);
    }
    n, ok := w.Write(b);
    err := if ok then None else Some(ShortWrite);
  }

  /** writeString: refuses a string with a rune that is 0 or above 0xFF
      before writing anything; otherwise writes one byte per rune and a
      terminating 0. */
  method WriteString(w: Sink, s: string) returns (err: Option<GzipError>)
    requires w.Valid()
    modifies w
    ensures w.Valid()
    ensures Emitted(old(w.data), w.data, old(w.Room()), Field(StringField(s)), err)
  {
    var needConversion := false;
    var i := 0;
    while i < |s|
      invariant 0 <= i <= |s|
      invariant forall j :: 0 <= j < i ==> Latin1Rune(s[j])
    {
      var v := s[i] as int;
      if v == 0 || v > 0xFF {
        assert !IsLatin1(s) && Field(StringField(s)) == Emission([], Some(NonLatin1String));
        assert w.data == old(w.data) + Take([], old(w.Room()));
        return Some(NonLatin1String);
      }
      if v > 0x7F {
        needConversion := true;
      }
      i := i + 1;
    }
    var b: seq<byte>;
    if needConversion {
      b := ConvertLatin1(s);
    } else {
      // io.WriteString: every rune is below 0x80, so the UTF-8 bytes of
      // the string are the runes themselves.
      b := Latin1Bytes(s);
    }
    assert Field(StringField(s)) == Emission(b + [0], None);
    err := WriteTerminated(w, b);
  }

  /** The last two writes of writeString: the bytes, then the terminating 0. */
  method WriteTerminated(w: Sink, b: seq<byte>) returns (err: Option<GzipError>)
    requires w.Valid()
    modifies w
    ensures w.Valid()
    ensures Emitted(old(w.data), w.data, old(w.Room()), Emission(b + [0], None), err)
  {
    ghost var room := w.Room();
    var n, ok := w.Write(b);
    TakeAppend(b, [0], room);
    if !ok {
      return Some(ShortWrite);
    }
    n, ok := w.Write([0]);
    err := if ok then None else Some(ShortWrite);
  }

  /** The conversion loop of writeString: one byte per rune. */
  method ConvertLatin1(s: string) returns (b: seq<byte>)
    requires IsLatin1(s)
    ensures b == Latin1Bytes(s)
  {
    b := [];
    var k := 0;
    while k < |s|
      invariant 0 <= k <= |s|
      invariant b == Latin1Bytes(s)[..k]
    {
      b := b + [s[k] as int];
      k := k + 1;
    }
  }

  /** The `[10]byte` buffer of writeGzipHeader: ID1 ID2 CM, FLG with the
      presence bits ORed in, MTIME as `PutUint32`, XFL = 0 and OS. */
  method PrefixBuffer(h: Header) returns (buffer: array<byte>)
    ensures fresh(buffer)
    ensures buffer[..] == Prefix(h)
  {
    buffer := new byte[10];
    buffer[0] := ID1;
    buffer[1] := ID2;
    buffer[2] := Deflate;
    buffer[3] := FlagByte(h);
    var mtime := Le32(Uint32(h.modUnix));
    buffer[4], buffer[5], buffer[6], buffer[7] := mtime[0], mtime[1], mtime[2], mtime[3];
    buffer[8] := 0;
    buffer[9] := h.os;
    assert buffer[..] == [ID1, ID2, Deflate, Flags(h)] + mtime + [0, h.os];
  }

  /** FLG: 0, with the presence bits ORed in. */
  method FlagByte(h: Header) returns (flg: byte)
    ensures flg == Flags(h)
  {
    var bits: bv8 := 0;
    if h.extra.Some? {
      bits := bits | 0x04;
    }
    if h.name != "" {
      bits := bits | 0x08;
    }
    if h.comment != "" {
      bits := bits | 0x10;
    }
    flg := bits as int;
  }

  /** writeGzipHeader: the 10-byte prefix in one write, then the present
      optional fields.  The count `n` it returns is that of the first write
      only, whatever follows. */
  method WriteGzipHeader(w: Sink, h: Header) returns (n: nat, err: Option<GzipError>)
    requires w.Valid()
    modifies w
    ensures w.Valid()
    ensures Emitted(old(w.data), w.data, old(w.Room()), EncodeHeader(h), err)
    ensures n == Min(10, old(w.Room()))
  {
    var buffer := PrefixBuffer(h);
    ghost var d0, room := w.data, w.Room();
    var ok;
    n, ok := w.Write(buffer[..]);
    if !ok {
      PrefixFailed(d0, w.data, room, h);
      return n, Some(ShortWrite);
    }
    err := WriteExtraOnwards(w, h, d0, room);
  }

  /** The FEXTRA field when present, then the rest, after a prefix that
      fitted. */
  method WriteExtraOnwards(w: Sink, h: Header, ghost d0: seq<byte>, ghost room: nat) returns (err: Option<GzipError>)
    requires w.Valid() && room == w.capacity - |d0|
    requires Emitted(d0, w.data, room, Emission(Prefix(h), None), None)
    modifies w
    ensures w.Valid()
    ensures Emitted(d0, w.data, room, EncodeHeader(h), err)
  {
    if h.extra.Some? {
      ghost var d1 := w.data;
      err := WriteBytes(w, h.extra.value);
      ExtraWritten(d0, d1, w.data, room, h, err);
      if err.Some? {
        return;
      }
    }
    err := WriteNameOnwards(w, h, d0, room);
  }

  /** The FNAME field when present, then the rest, after the fields before
      it were written in full. */
  method WriteNameOnwards(w: Sink, h: Header, ghost d0: seq<byte>, ghost room: nat) returns (err: Option<GzipError>)
    requires w.Valid() && room == w.capacity - |d0|
    requires Emitted(d0, w.data, room, AddExtra(h, Emission(Prefix(h), None)), None)
    modifies w
    ensures w.Valid()
    ensures Emitted(d0, w.data, room, EncodeHeader(h), err)
  {
    if h.name != "" {
      ghost var d1 := w.data;
      err := WriteString(w, h.name);
      NameWritten(d0, d1, w.data, room, h, err);
      if err.Some? {
        return;
      }
    }
    err := WriteCommentField(w, h, d0, room);
  }

  /** The FCOMMENT field when present, the last of the header. */
  method WriteCommentField(w: Sink, h: Header, ghost d0: seq<byte>, ghost room: nat) returns (err: Option<GzipError>)
    requires w.Valid() && room == w.capacity - |d0|
    requires Emitted(d0, w.data, room, AddName(h, AddExtra(h, Emission(Prefix(h), None))), None)
    modifies w
    ensures w.Valid()
    ensures Emitted(d0, w.data, room, EncodeHeader(h), err)
  {
    if h.comment != "" {
      ghost var d1 := w.data;
      err := WriteString(w, h.comment);
      CommentWritten(d0, d1, w.data, room, h, err);
    } else {
      err := None;
    }
  }
}
