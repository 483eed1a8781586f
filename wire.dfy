/** Byte-level vocabulary shared by the gzip framing: octets, Go's error
    returns as Option/Result, little-endian integers, `uint32(...)`
    truncation, and the prefix of a sequence a bounded writer accepts. */
module Wire {

  /** One octet, as Go's `byte`. */
  type byte = x: int | 0 <= x < 256

  datatype Option<+T> = None | Some(value: T)

  datatype Result<+T, +E> = Ok(value: T) | Err(error: E)

  const TwoTo16: nat := 0x1_0000
  const TwoTo32: nat := 0x1_0000_0000

  function Min(a: nat, b: nat): nat { if a <= b then a else b }

  /** 2^k, used to name single bits of a byte. */
  function Pow2(k: nat): (p: nat)
    ensures p > 0
  {
    if k == 0 then 1 else 2 * Pow2(k - 1)
  }

  /** True when bit `k` (value 2^k) of `b` is set. */
  predicate HasBit(b: byte, k: nat)
    requires k < 8
  {
    (b / Pow2(k)) % 2 == 1
  }

  /** `binary.LittleEndian.PutUint16` */
  function Le16(n: nat): (r: seq<byte>)
    requires n < TwoTo16
    ensures |r| == 2 && DecodeLe16(r) == n
  {
    [n % 256, n / 256]
  }

  /** `binary.LittleEndian.Uint16` */
  function DecodeLe16(b: seq<byte>): (n: nat)
    requires |b| == 2
    ensures n < TwoTo16
  {
    b[0] as int + 256 * b[1] as int
  }

  /** `binary.LittleEndian.PutUint32` */
  function Le32(n: nat): (r: seq<byte>)
    requires n < TwoTo32
    ensures |r| == 4 && DecodeLe32(r) == n
  {
    var lo, hi := n % TwoTo16, n / TwoTo16;
    assert lo + TwoTo16 * hi == n;
    Le16(lo) + Le16(hi)
  }

  /** `binary.LittleEndian.Uint32` */
  function DecodeLe32(b: seq<byte>): (n: nat)
    requires |b| == 4
    ensures n < TwoTo32
  {
    DecodeLe16(b[..2]) + TwoTo16 * DecodeLe16(b[2..])
  }

  /** Four bytes are the encoding of the number they decode to. */
  lemma Le32OfDecode(b: seq<byte>)
    requires |b| == 4
    ensures Le32(DecodeLe32(b)) == b
  {
    var lo, hi := DecodeLe16(b[..2]), DecodeLe16(b[2..]);
    assert DecodeLe32(b) % TwoTo16 == lo && DecodeLe32(b) / TwoTo16 == hi;
    assert Le16(lo) == b[..2] && Le16(hi) == b[2..];
    assert b == b[..2] + b[2..];
  }

  /** Go's `uint32(x)` of a signed integer: keep the low 32 bits of the
      two's-complement value, which is `x` modulo 2^32. */
  function Uint32(x: int): (r: nat)
    ensures r < TwoTo32
    ensures (x - r) % TwoTo32 == 0
    ensures 0 <= x < TwoTo32 ==> r == x
  {
    x % TwoTo32
  }

  /** The prefix of `s` that a writer with `room` free bytes accepts. */
  function Take<T>(s: seq<T>, room: nat): (r: seq<T>)
    ensures |r| == Min(|s|, room)
    ensures r <= s
  {
    if room >= |s| then s else s[..room]
  }

  /** Accepting `a` then `b` is accepting `a + b`. */
  lemma TakeAppend<T>(a: seq<T>, b: seq<T>, room: nat)
    ensures |a| <= room ==> Take(a + b, room) == a + Take(b, room - |a|)
    ensures |a| > room ==> Take(a + b, room) == Take(a, room)
  {
    if |a| <= room && room < |a| + |b| {
      assert (a + b)[..room] == a + b[..room - |a|];
    } else if |a| > room {
      assert (a + b)[..room] == a[..room];
    }
  }

  /** A piece that does not fit after `data[..i]` leaves exactly the prefix
      of `data` that fits. */
  lemma TakeSplit<T>(data: seq<T>, i: nat, n: nat, room: nat)
    requires i <= room < i + n <= |data|
    ensures data[..i] + Take(data[i..i + n], room - i) == Take(data, room)
  {
    assert data[i..i + n][..room - i] == data[i..room];
    assert data[..i] + data[i..room] == data[..room];
  }

  /** Regrouping a concatenation of four pieces. */
  lemma Regroup<T>(p: seq<T>, x: seq<T>, n: seq<T>, c: seq<T>)
    ensures p + x + n + c == p + (x + n + c)
  {
  }

  /** The parts of `a + b + c` when `c` is an eight-byte trailer. */
  lemma TrailerSlices<T>(a: seq<T>, b: seq<T>, c: seq<T>)
    requires |c| == 8
    ensures var m := a + b + c;
            && m == a + (b + c)
            && m[|a|..] == b + c
            && m[|a|..|m| - 8] == b
            && m[|m| - 8..|m| - 4] == c[..4]
            && m[|m| - 4..] == c[4..]
  {
    var m := a + b + c;
    assert m[|a|..] == b + c;
    assert m[|m| - 8..] == c;
  }

  /** Appending the next piece of `s` extends the prefix already appended. */
  lemma AppendPiece<T>(a: seq<T>, s: seq<T>, i: nat, j: nat)
    requires i <= j <= |s|
    ensures a + s[..i] + s[i..j] == a + s[..j]
  {
    assert s[..i] + s[i..j] == s[..j];
  }
}
