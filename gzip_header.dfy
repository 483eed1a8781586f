/** The gzip member header that writeGzipHeader (xflate.go) builds by hand,
    following section 2.3.1 of RFC 1952: the fixed 10-byte prefix
    ID1 ID2 CM FLG MTIME XFL OS, then the optional FEXTRA, FNAME and FCOMMENT
    fields in that order.  EncodeHeader is the byte sequence the writer
    attempts to emit (stopping at the first field that cannot be encoded);
    ParseHeader is an independent reader of the same layout, and
    HeaderRoundTrip connects the two. */
module GzipHeader {
  import opened Wire

  const ID1: byte := 0x1F
  const ID2: byte := 0x8B
  /** CM = 8, "deflate". */
  const Deflate: byte := 8
  /** OS = 255, "unknown". */
  const OSUnknown: byte := 255
  /** XLEN is a 16-bit field. */
  const MaxExtra: nat := 0xFFFF

  /** The fields of `gzip.Header` that writeGzipHeader reads.  `extra` is
      `None` for a nil slice and `Some([])` for an empty non-nil one;
      `modUnix` is `ModTime.Unix()`. */
  datatype Header = Header(
    extra: Option<seq<byte>>,
    name: string,
    comment: string,
    modUnix: int,
    os: byte)

  /** `time.Time{}.Unix()`: the zero time is 1 January of year 1, UTC. */
  const ZeroTimeUnix: int := -62135596800

  datatype GzipError =
    | ExtraTooLarge     // "gzip.Write: Extra data is too large"
    | NonLatin1String   // "gzip.Write: non-Latin-1 header string"
    | ShortWrite        // the underlying writer accepted fewer bytes than given

  /** FLG: FEXTRA (bit 2, 0x04), FNAME (bit 3, 0x08), FCOMMENT (bit 4, 0x10). */
  function Flags(h: Header): (flg: byte)
    ensures HasBit(flg, 2) == h.extra.Some?
    ensures HasBit(flg, 3) == (h.name != "")
    ensures HasBit(flg, 4) == (h.comment != "")
    ensures !HasBit(flg, 0) && !HasBit(flg, 1)
    ensures !HasBit(flg, 5) && !HasBit(flg, 6) && !HasBit(flg, 7)
  {
    (if h.extra.Some? then 4 else 0)
    + (if h.name != "" then 8 else 0)
    + (if h.comment != "" then 16 else 0)
  }

  /** MTIME: `uint32(header.ModTime.Unix())`, truncated, never clamped. */
  function MTime(h: Header): nat
  {
    Uint32(h.modUnix)
  }

  /** The fixed part: ID1 ID2 CM FLG MTIME(4) XFL OS. */
  function Prefix(h: Header): seq<byte>
  {
    [ID1, ID2, Deflate, Flags(h)] + Le32(MTime(h)) + [0, h.os]
  }

  /** A rune writeString accepts: neither 0 nor above 0xFF. */
  predicate Latin1Rune(c: char)
  {
    0 < c as int <= 0xFF
  }

  predicate IsLatin1(s: string)
  {
    forall i :: 0 <= i < |s| ==> Latin1Rune(s[i])
  }

  /** One byte per rune. */
  function Latin1Bytes(s: string): seq<byte>
    requires IsLatin1(s)
  {
    seq(|s|, i requires 0 <= i < |s| => s[i] as int)
  }

  /** What writeString emits for `s`, or why it refuses. */
  function StringField(s: string): (r: Result<seq<byte>, GzipError>)
    ensures r.Ok? <==> IsLatin1(s)
    ensures r.Err? ==> r.error == NonLatin1String
    ensures r.Ok? ==> |r.value| == |s| + 1 && r.value[|s|] == 0
    ensures r.Ok? ==> forall i :: 0 <= i < |s| ==> r.value[i] == s[i] as int && r.value[i] != 0
  {
    if IsLatin1(s) then Ok(Latin1Bytes(s) + [0]) else Err(NonLatin1String)
  }

  /** What writeBytes emits for `b`: XLEN then the bytes, or a refusal. */
  function ExtraField(b: seq<byte>): (r: Result<seq<byte>, GzipError>)
    ensures r.Ok? <==> |b| <= MaxExtra
    ensures r.Err? ==> r.error == ExtraTooLarge
    ensures r.Ok? ==> |r.value| == |b| + 2 && DecodeLe16(r.value[..2]) == |b| && r.value[2..] == b
  {
    if |b| > MaxExtra then Err(ExtraTooLarge) else Ok(Le16(|b|) + b)
  }

  /** Bytes a writer attempts to emit, and the encoding error (if any) that
      stopped it afterwards. */
  datatype Emission = Emission(bytes: seq<byte>, err: Option<GzipError>)

  function Field(r: Result<seq<byte>, GzipError>): Emission
  {
    match r
    case Ok(b) => Emission(b, None)
    case Err(e) => Emission([], Some(e))
  }

  /** `a`, and then `b` unless `a` already failed. */
  function Then(a: Emission, b: Emission): Emission
  {
    if a.err.Some? then a else Emission(a.bytes + b.bytes, b.err)
  }

  /** The FEXTRA field, when `h` has one. */
  function AddExtra(h: Header, e: Emission): Emission
  {
    if h.extra.Some? then Then(e, Field(ExtraField(h.extra.value))) else e
  }

  /** The FNAME field, when the name is not empty. */
  function AddName(h: Header, e: Emission): Emission
  {
    if h.name != "" then Then(e, Field(StringField(h.name))) else e
  }

  /** The FCOMMENT field, when the comment is not empty. */
  function AddComment(h: Header, e: Emission): Emission
  {
    if h.comment != "" then Then(e, Field(StringField(h.comment))) else e
  }

  /** Every present optional field can be encoded. */
  predicate Encodable(h: Header)
  {
    && (h.extra.Some? ==> |h.extra.value| <= MaxExtra)
    && IsLatin1(h.name)
    && IsLatin1(h.comment)
  }

  /** The header writeGzipHeader emits for `h` on a writer that never fails. */
  function EncodeHeader(h: Header): (e: Emission)
    ensures e.err.None? <==> Encodable(h)
    ensures |e.bytes| >= 10
    ensures e.bytes[0] == ID1 && e.bytes[1] == ID2 && e.bytes[2] == Deflate
    ensures e.bytes[3] == Flags(h)
    ensures DecodeLe32(e.bytes[4..8]) == MTime(h)
    ensures e.bytes[8] == 0 && e.bytes[9] == h.os
  {
    var p := Prefix(h);
    var e := AddComment(h, AddName(h, AddExtra(h, Emission(p, None))));
    FieldsExtend(h, p);
    PrefixLayout(h);
    assert e.bytes[..10] == p;
    assert e.bytes[4..8] == p[4..8];
    e
  }

  /** The fixed part, byte by byte. */
  lemma PrefixLayout(h: Header)
    ensures |Prefix(h)| == 10
    ensures Prefix(h)[0] == ID1 && Prefix(h)[1] == ID2 && Prefix(h)[2] == Deflate && Prefix(h)[3] == Flags(h)
    ensures DecodeLe32(Prefix(h)[4..8]) == MTime(h)
    ensures Prefix(h)[8] == 0 && Prefix(h)[9] == h.os
  {
    assert Prefix(h)[4..8] == Le32(MTime(h));
  }

  /** A field only extends an emission, and the emission fails exactly
      when the earlier part or the field fails. */
  lemma ThenExtends(a: Emission, b: Emission)
    ensures a.bytes <= Then(a, b).bytes
    ensures Then(a, b).err.None? <==> a.err.None? && b.err.None?
  {
  }

  /** The optional fields after any prefix `p`: they only extend it, and
      they are emitted without error exactly when the header is encodable. */
  lemma FieldsExtend(h: Header, p: seq<byte>)
    ensures var e := AddComment(h, AddName(h, AddExtra(h, Emission(p, None))));
            p <= e.bytes && (e.err.None? <==> Encodable(h))
  {
    var e1 := AddExtra(h, Emission(p, None));
    if h.extra.Some? {
      ThenExtends(Emission(p, None), Field(ExtraField(h.extra.value)));
    }
    var e2 := AddName(h, e1);
    if h.name != "" {
      ThenExtends(e1, Field(StringField(h.name)));
    } else {
      assert IsLatin1(h.name);
    }
    if h.comment != "" {
      ThenExtends(e2, Field(StringField(h.comment)));
    } else {
      assert IsLatin1(h.comment);
    }
  }

  /** The optional fields of an encodable header, in the order extra,
      name, comment. */
  function OptionalFields(h: Header): seq<byte>
    requires Encodable(h)
  {
    ExtraBytes(h) + OptionalString(h.name) + OptionalString(h.comment)
  }

  /** The FEXTRA field of an encodable header, or nothing. */
  function ExtraBytes(h: Header): seq<byte>
    requires h.extra.Some? ==> |h.extra.value| <= MaxExtra
  {
    if h.extra.Some? then Le16(|h.extra.value|) + h.extra.value else []
  }

  /** An FNAME or FCOMMENT field, or nothing for the empty string. */
  function OptionalString(s: string): seq<byte>
    requires IsLatin1(s)
  {
    if s != "" then Latin1Bytes(s) + [0] else []
  }

  /** An encodable header is the prefix followed by exactly the present
      optional fields; nothing else is emitted. */
  lemma EncodeHeaderLayout(h: Header)
    requires Encodable(h)
    ensures EncodeHeader(h).bytes == Prefix(h) + OptionalFields(h)
  {
    var p, x, n, c := Prefix(h), ExtraBytes(h), OptionalString(h.name), OptionalString(h.comment);
    FieldsAfter(h, p);
    Regroup(p, x, n, c);
  }

  /** The optional fields of an encodable header, emitted after any `p`. */
  lemma FieldsAfter(h: Header, p: seq<byte>)
    requires Encodable(h)
    ensures AddComment(h, AddName(h, AddExtra(h, Emission(p, None))))
         == Emission(p + ExtraBytes(h) + OptionalString(h.name) + OptionalString(h.comment), None)
  {
    var e1 := AddExtra(h, Emission(p, None));
    AddExtraEncodable(h, Emission(p, None));
    AddStringEncodable(h.name, e1);
    AddStringEncodable(h.comment, AddName(h, e1));
  }

  lemma AddExtraEncodable(h: Header, e: Emission)
    requires e.err.None? && (h.extra.Some? ==> |h.extra.value| <= MaxExtra)
    ensures AddExtra(h, e) == Emission(e.bytes + ExtraBytes(h), None)
  {
    if h.extra.None? {
      assert e.bytes + [] == e.bytes;
    }
  }

  /** A name or comment that can be encoded appends its field (or nothing). */
  lemma AddStringEncodable(s: string, e: Emission)
    requires e.err.None? && IsLatin1(s)
    ensures (if s != "" then Then(e, Field(StringField(s))) else e) == Emission(e.bytes + OptionalString(s), None)
  {
    if s == "" {
      assert e.bytes + [] == e.bytes;
    }
  }

  /** A name or comment that writeString refuses contributes no byte (not
      even its terminator); the prefix and the earlier fields stay emitted. */
  lemma RefusedStringWritesNothing(h: Header)
    requires h.extra.Some? ==> |h.extra.value| <= MaxExtra
    ensures !IsLatin1(h.name) ==>
      EncodeHeader(h) == Emission(Prefix(h) + ExtraBytes(h), Some(NonLatin1String))
    ensures IsLatin1(h.name) && !IsLatin1(h.comment) ==>
      EncodeHeader(h) == Emission(Prefix(h) + ExtraBytes(h) + OptionalString(h.name), Some(NonLatin1String))
  {
  }

  /** The zero time does not give RFC 1952's MTIME = 0 ("no time stamp
      available"): its Unix seconds truncate to 0x886E0900. */
  lemma ZeroTimeMTime(h: Header)
    requires h.modUnix == ZeroTimeUnix
    ensures MTime(h) == 0x886E_0900 && MTime(h) != 0
  {
  }

  // ---------------------------------------------------------------------
  // A reader of the same layout (section 2.3.1 of RFC 1952), used as the
  // partner of the writer.

  /** A zero-terminated ISO 8859-1 string: the runes before the first 0 and
      the bytes after it. */
  function ReadCString(b: seq<byte>): Option<(string, seq<byte>)>
    decreases |b|
  {
    if b == [] then None
    else if b[0] == 0 then Some(([], b[1..]))
    else match ReadCString(b[1..])
      case None => None
      case Some((s, rest)) => Some(([b[0] as char] + s, rest))
  }

  /** XLEN and the extra bytes it announces. */
  function ReadExtra(b: seq<byte>): Option<(seq<byte>, seq<byte>)>
  {
    if |b| < 2 then None
    else
      var n := DecodeLe16(b[..2]);
      if |b| < 2 + n then None else Some((b[2..2 + n], b[2 + n..]))
  }

  function ReadOptionalString(present: bool, b: seq<byte>): Option<(string, seq<byte>)>
  {
    if present then ReadCString(b) else Some(([], b))
  }

  /** Reads a member header; gives the header and the bytes after it. */
  function ParseHeader(b: seq<byte>): Option<(Header, seq<byte>)>
  {
    if |b| < 10 || b[0] != ID1 || b[1] != ID2 || b[2] != Deflate then None
    else if HasBit(b[3], 5) || HasBit(b[3], 6) || HasBit(b[3], 7) then None
    else ParseFields(b[3], DecodeLe32(b[4..8]), b[9], b[10..])
  }

  /** The optional fields announced by FLG, then FHCRC if FLG has it. */
  function ParseFields(flg: byte, mtime: nat, os: byte, b: seq<byte>): Option<(Header, seq<byte>)>
  {
    var extra := if HasBit(flg, 2) then ReadExtra(b) else Some(([], b));
    if extra.None? then None
    else
      var (x, r1) := extra.value;
      match ReadOptionalString(HasBit(flg, 3), r1)
      case None => None
      case Some((name, r2)) =>
        match ReadOptionalString(HasBit(flg, 4), r2)
        case None => None
        case Some((comment, r3)) =>
          if HasBit(flg, 1) && |r3| < 2 then None
          else
            var rest := if HasBit(flg, 1) then r3[2..] else r3;
            Some((Header(if HasBit(flg, 2) then Some(x) else None, name, comment, mtime, os), rest))
  }

  /** Reading back a string field gives the string and leaves what follows. */
  lemma {:induction false} ReadStringField(s: string, rest: seq<byte>)
    requires IsLatin1(s)
    ensures ReadCString(Latin1Bytes(s) + [0] + rest) == Some((s, rest))
    decreases |s|
  {
    var b := Latin1Bytes(s) + [0] + rest;
    if s == [] {
      assert b == [0] + rest;
    } else {
      assert b[1..] == Latin1Bytes(s[1..]) + [0] + rest;
      ReadStringField(s[1..], rest);
      assert b[0] as char == s[0];
      assert [s[0]] + s[1..] == s;
    }
  }

  /** Reading an optional field back from what the writer put there. */
  lemma ReadOptionalField(s: string, rest: seq<byte>)
    requires IsLatin1(s)
    ensures ReadOptionalString(s != "", OptionalString(s) + rest) == Some((s, rest))
  {
    if s != "" {
      ReadStringField(s, rest);
    } else {
      var none: seq<byte> := [];
      assert none + rest == rest;
    }
  }

  /** Reading an extra field back from what writeBytes put there. */
  lemma ReadExtraField(x: seq<byte>, rest: seq<byte>)
    requires |x| <= MaxExtra
    ensures ReadExtra(Le16(|x|) + x + rest) == Some((x, rest))
  {
    var b := Le16(|x|) + x + rest;
    assert b[..2] == Le16(|x|);
    assert b[2..2 + |x|] == x;
    assert b[2 + |x|..] == rest;
  }

  /** ParseFields, given what each of its three readers yields. */
  lemma ParseFieldsSteps(flg: byte, mtime: nat, os: byte, b: seq<byte>, x: seq<byte>, r1: seq<byte>,
                         name: string, r2: seq<byte>, comment: string, r3: seq<byte>)
    requires !HasBit(flg, 1)
    requires (if HasBit(flg, 2) then ReadExtra(b) else Some(([], b))) == Some((x, r1))
    requires ReadOptionalString(HasBit(flg, 3), r1) == Some((name, r2))
    requires ReadOptionalString(HasBit(flg, 4), r2) == Some((comment, r3))
    ensures ParseFields(flg, mtime, os, b)
         == Some((Header(if HasBit(flg, 2) then Some(x) else None, name, comment, mtime, os), r3))
  {
  }

  /** Reading the FEXTRA field (or its absence) announced by the flag byte. */
  lemma ReadExtraBytes(h: Header, rest: seq<byte>)
    requires Encodable(h)
    ensures (if HasBit(Flags(h), 2) then ReadExtra(ExtraBytes(h) + rest) else Some(([], ExtraBytes(h) + rest)))
         == Some((if h.extra.Some? then h.extra.value else [], rest))
  {
    if h.extra.Some? {
      ReadExtraField(h.extra.value, rest);
    } else {
      assert ExtraBytes(h) + rest == rest;
    }
  }

  /** The optional fields come back out of what the writer emitted. */
  lemma ParseOptionalFields(h: Header, payload: seq<byte>)
    requires Encodable(h)
    ensures ParseFields(Flags(h), MTime(h), h.os, OptionalFields(h) + payload)
         == Some((h.(modUnix := MTime(h)), payload))
  {
    var r2 := OptionalString(h.comment) + payload;
    var r1 := OptionalString(h.name) + r2;
    var b := OptionalFields(h) + payload;
    assert b == ExtraBytes(h) + r1;
    ReadExtraBytes(h, r1);
    ReadOptionalField(h.name, r2);
    ReadOptionalField(h.comment, payload);
    ParseFieldsSteps(Flags(h), MTime(h), h.os, b, if h.extra.Some? then h.extra.value else [], r1,
                     h.name, r2, h.comment, payload);
  }

  /** Decoding what writeGzipHeader wrote gives back the header, with the
      modification time truncated to its 32-bit MTIME, and leaves the
      payload that follows untouched. */
  lemma HeaderRoundTrip(h: Header, payload: seq<byte>)
    requires Encodable(h)
    ensures ParseHeader(EncodeHeader(h).bytes + payload) == Some((h.(modUnix := MTime(h)), payload))
  {
    var p, f := Prefix(h), OptionalFields(h);
    EncodeHeaderLayout(h);
    assert EncodeHeader(h).bytes + payload == p + (f + payload);
    ParsePrefix(h, f + payload);
    ParseOptionalFields(h, payload);
  }

  /** The fixed part reads back as the flag byte, MTIME and OS. */
  lemma ParsePrefix(h: Header, rest: seq<byte>)
    ensures ParseHeader(Prefix(h) + rest) == ParseFields(Flags(h), MTime(h), h.os, rest)
  {
    var b := Prefix(h) + rest;
    var m := Le32(MTime(h));
    assert b[..10] == [ID1, ID2, Deflate, Flags(h)] + m + [0, h.os];
    assert b[4..8] == m;
    assert b[10..] == rest;
  }

}
