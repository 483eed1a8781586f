/** The IEEE CRC-32 that `hash/crc32.NewIEEE` computes (reflected
    polynomial 0xEDB88320, initial value and final mask all ones), and the
    streaming hasher that XflateCompressFile feeds through io.MultiWriter.
    The hasher keeps only the 32-bit running remainder, as the Go digest
    does; the proof that this equals the checksum of everything written so
    far is the chunking lemma UpdateAppend. */
module Crc32 {
  import opened Wire

  const Poly: bv32 := 0xEDB8_8320

  /** One shift of the bitwise (table-free) CRC register. */
  function Half(c: bv32): bv32
  {
    if c & 1 == 1 then (c >> 1) ^ Poly else c >> 1
  }

  /** Fold one input byte into the register. */
  function StepByte(c: bv32, b: byte): bv32
  {
    var x := c ^ (b as bv32);
    Half(Half(Half(Half(Half(Half(Half(Half(x))))))))
  }

  /** The register after folding in `data`, front to back. */
  function Update(c: bv32, data: seq<byte>): bv32
    decreases |data|
  {
    if data == [] then c else Update(StepByte(c, data[0]), data[1..])
  }

  const Init: bv32 := 0xFFFF_FFFF

  /** CRC-32 (IEEE) of a whole byte sequence. */
  function Checksum(data: seq<byte>): (sum: bv32)
    // The register starts and ends inverted, so nothing sums to 0.
    ensures data == [] ==> sum == 0
  {
    Update(Init, data) ^ 0xFFFF_FFFF
  }

  /** Folding in `a` and then `b` is folding in `a + b`: the checksum does
      not depend on how the input was split into writes. */
  lemma {:induction false} UpdateAppend(c: bv32, a: seq<byte>, b: seq<byte>)
    ensures Update(c, a + b) == Update(Update(c, a), b)
    decreases |a|
  {
    if a == [] {
      assert a + b == b;
    } else {
      assert (a + b)[1..] == a[1..] + b;
      UpdateAppend(StepByte(c, a[0]), a[1..], b);
    }
  }

  /** Folding in the first byte of `s`, given the register it leads to. */
  lemma FoldFirst(c: bv32, b: byte, s: seq<byte>, next: bv32)
    requires s != [] && s[0] == b && StepByte(c, b) == next
    ensures Update(c, s) == Update(next, s[1..])
  {
  }

  /** Digit1 to Digit9: the register after each byte of "123456789",
      one shift at a time. */
  lemma Digit1()
    ensures StepByte(0xFFFFFFFF, 0x31) == 0x7C231048
  {
    assert (0x31 as int) as bv32 == 0x31;
    assert Half(0xFFFFFFCE) == 0x7FFFFFE7 && Half(0x7FFFFFE7) == 0xD2477CD3 && Half(0xD2477CD3) == 0x849B3D49 && Half(0x849B3D49) == 0xAFF51D84;
    assert Half(0xAFF51D84) == 0x57FA8EC2 && Half(0x57FA8EC2) == 0x2BFD4761 && Half(0x2BFD4761) == 0xF8462090 && Half(0xF8462090) == 0x7C231048;
  }

  lemma Digit2()
    ensures StepByte(0x7C231048, 0x32) == 0xB0ACBB32
  {
    assert (0x32 as int) as bv32 == 0x32;
    assert Half(0x7C23107A) == 0x3E11883D && Half(0x3E11883D) == 0xF2B0473E && Half(0xF2B0473E) == 0x7958239F && Half(0x7958239F) == 0xD11492EF;
    assert Half(0xD11492EF) == 0x8532CA57 && Half(0x8532CA57) == 0xAF21E60B && Half(0xAF21E60B) == 0xBA287025 && Half(0xBA287025) == 0xB0ACBB32;
  }

  lemma Digit3()
    ensures StepByte(0xB0ACBB32, 0x33) == 0x77B79C2D
  {
    assert (0x33 as int) as bv32 == 0x33;
    assert Half(0xB0ACBB01) == 0xB5EEDEA0 && Half(0xB5EEDEA0) == 0x5AF76F50 && Half(0x5AF76F50) == 0x2D7BB7A8 && Half(0x2D7BB7A8) == 0x16BDDBD4;
    assert Half(0x16BDDBD4) == 0x0B5EEDEA && Half(0x0B5EEDEA) == 0x05AF76F5 && Half(0x05AF76F5) == 0xEF6F385A && Half(0xEF6F385A) == 0x77B79C2D;
  }

  lemma Digit4()
    ensures StepByte(0x77B79C2D, 0x34) == 0x641C1F5C
  {
    assert (0x34 as int) as bv32 == 0x34;
    assert Half(0x77B79C19) == 0xD6634D2C && Half(0xD6634D2C) == 0x6B31A696 && Half(0x6B31A696) == 0x3598D34B && Half(0x3598D34B) == 0xF774EA85;
    assert Half(0xF774EA85) == 0x9602F662 && Half(0x9602F662) == 0x4B017B31 && Half(0x4B017B31) == 0xC8383EB8 && Half(0xC8383EB8) == 0x641C1F5C;
  }

  lemma Digit5()
    ensures StepByte(0x641C1F5C, 0x35) == 0x340AC5E3
  {
    assert (0x35 as int) as bv32 == 0x35;
    assert Half(0x641C1F69) == 0xDFB68C94 && Half(0xDFB68C94) == 0x6FDB464A && Half(0x6FDB464A) == 0x37EDA325 && Half(0x37EDA325) == 0xF64E52B2;
    assert Half(0xF64E52B2) == 0x7B272959 && Half(0x7B272959) == 0xD02B178C && Half(0xD02B178C) == 0x68158BC6 && Half(0x68158BC6) == 0x340AC5E3;
  }

  lemma Digit6()
    ensures StepByte(0x340AC5E3, 0x36) == 0xF68D2C9E
  {
    assert (0x36 as int) as bv32 == 0x36;
    assert Half(0x340AC5D5) == 0xF7BDE1CA && Half(0xF7BDE1CA) == 0x7BDEF0E5 && Half(0x7BDEF0E5) == 0xD057FB52 && Half(0xD057FB52) == 0x682BFDA9;
    assert Half(0x682BFDA9) == 0xD9AD7DF4 && Half(0xD9AD7DF4) == 0x6CD6BEFA && Half(0x6CD6BEFA) == 0x366B5F7D && Half(0x366B5F7D) == 0xF68D2C9E;
  }

  lemma Digit7()
    ensures StepByte(0xF68D2C9E, 0x37) == 0xAFFC9660
  {
    assert (0x37 as int) as bv32 == 0x37;
    assert Half(0xF68D2CA9) == 0x96FE1574 && Half(0x96FE1574) == 0x4B7F0ABA && Half(0x4B7F0ABA) == 0x25BF855D && Half(0x25BF855D) == 0xFF67418E;
    assert Half(0xFF67418E) == 0x7FB3A0C7 && Half(0x7FB3A0C7) == 0xD2615343 && Half(0xD2615343) == 0x84882A81 && Half(0x84882A81) == 0xAFFC9660;
  }

  lemma Digit8()
    ensures StepByte(0xAFFC9660, 0x38) == 0x651F2550
  {
    assert (0x38 as int) as bv32 == 0x38;
    assert Half(0xAFFC9658) == 0x57FE4B2C && Half(0x57FE4B2C) == 0x2BFF2596 && Half(0x2BFF2596) == 0x15FF92CB && Half(0x15FF92CB) == 0xE7474A45;
    assert Half(0xE7474A45) == 0x9E1B2602 && Half(0x9E1B2602) == 0x4F0D9301 && Half(0x4F0D9301) == 0xCA3E4AA0 && Half(0xCA3E4AA0) == 0x651F2550;
  }

  lemma Digit9()
    ensures StepByte(0x651F2550, 0x39) == 0x340BC6D9
  {
    assert (0x39 as int) as bv32 == 0x39;
    assert Half(0x651F2569) == 0xDF371194 && Half(0xDF371194) == 0x6F9B88CA && Half(0x6F9B88CA) == 0x37CDC465 && Half(0x37CDC465) == 0xF65E6112;
    assert Half(0xF65E6112) == 0x7B2F3089 && Half(0x7B2F3089) == 0xD02F1B64 && Half(0xD02F1B64) == 0x68178DB2 && Half(0x68178DB2) == 0x340BC6D9;
  }

  /** The standard check value of this CRC: the checksum of the ASCII
      digits "123456789" is 0xCBF43926. */
  lemma CheckValue(digits: seq<byte>)
    requires digits == [0x31, 0x32, 0x33, 0x34, 0x35, 0x36, 0x37, 0x38, 0x39]
    ensures Checksum(digits) == 0xCBF4_3926
  {
    var middle, rest := digits[3..], digits[5..];
    assert Update(Init, digits) == Update(0x77B79C2D, middle) by {
      CheckDigitsOneToThree(digits);
    }
    assert Update(0x77B79C2D, middle) == Update(0x340AC5E3, rest) by {
      CheckDigitsFourToFive(middle);
      assert middle[2..] == rest;
    }
    assert Update(0x340AC5E3, rest) == 0x340BC6D9 by {
      CheckDigitsSixToNine(rest);
    }
  }

  /** Folding in "123". */
  lemma CheckDigitsOneToThree(s: seq<byte>)
    requires |s| >= 3 && s[0] == 0x31 && s[1] == 0x32 && s[2] == 0x33
    ensures Update(0xFFFFFFFF, s) == Update(0x77B79C2D, s[3..])
  {
    assert Update(0xFFFFFFFF, s) == Update(0x7C231048, s[1..]) by {
      Digit1();
      FoldFirst(0xFFFFFFFF, 0x31, s, 0x7C231048);
    }
    assert Update(0x7C231048, s[1..]) == Update(0xB0ACBB32, s[2..]) by {
      Digit2();
      FoldFirst(0x7C231048, 0x32, s[1..], 0xB0ACBB32);
      assert s[1..][1..] == s[2..];
    }
    assert Update(0xB0ACBB32, s[2..]) == Update(0x77B79C2D, s[3..]) by {
      Digit3();
      FoldFirst(0xB0ACBB32, 0x33, s[2..], 0x77B79C2D);
      assert s[2..][1..] == s[3..];
    }
  }

  /** Folding in "45". */
  lemma CheckDigitsFourToFive(s: seq<byte>)
    requires |s| >= 2 && s[0] == 0x34 && s[1] == 0x35
    ensures Update(0x77B79C2D, s) == Update(0x340AC5E3, s[2..])
  {
    assert Update(0x77B79C2D, s) == Update(0x641C1F5C, s[1..]) by {
      Digit4();
      FoldFirst(0x77B79C2D, 0x34, s, 0x641C1F5C);
    }
    assert Update(0x641C1F5C, s[1..]) == Update(0x340AC5E3, s[2..]) by {
      Digit5();
      FoldFirst(0x641C1F5C, 0x35, s[1..], 0x340AC5E3);
      assert s[1..][1..] == s[2..];
    }
  }

  /** Folding in "6789". */
  lemma CheckDigitsSixToNine(rest: seq<byte>)
    requires |rest| == 4 && rest[0] == 0x36 && rest[1] == 0x37 && rest[2] == 0x38 && rest[3] == 0x39
    ensures Update(0x340AC5E3, rest) == 0x340BC6D9
  {
    assert Update(0x340AC5E3, rest) == Update(0xF68D2C9E, rest[1..]) by {
      Digit6();
      FoldFirst(0x340AC5E3, 0x36, rest, 0xF68D2C9E);
    }
    assert Update(0xF68D2C9E, rest[1..]) == Update(0xAFFC9660, rest[2..]) by {
      Digit7();
      FoldFirst(0xF68D2C9E, 0x37, rest[1..], 0xAFFC9660);
      assert rest[1..][1..] == rest[2..];
    }
    assert Update(0xAFFC9660, rest[2..]) == Update(0x651F2550, rest[3..]) by {
      Digit8();
      FoldFirst(0xAFFC9660, 0x38, rest[2..], 0x651F2550);
      assert rest[2..][1..] == rest[3..];
    }
    assert Update(0x651F2550, rest[3..]) == Update(0x340BC6D9, rest[4..]) by {
      Digit9();
      FoldFirst(0x651F2550, 0x39, rest[3..], 0x340BC6D9);
      assert rest[3..][1..] == rest[4..];
    }
    assert rest[4..] == [];
  }

  /** The digest returned by `crc32.NewIEEE()`. */
  class Hasher {
    var crc: bv32
    ghost var seen: seq<byte>

    ghost predicate Valid()
      reads this
    {
      crc == Update(Init, seen)
    }

    constructor ()
      ensures Valid() && seen == []
    {
      crc := Init;
      seen := [];
    }

    /** `Write` of hash.Hash32: never fails, consumes all of `p`. */
    method Write(p: seq<byte>)
      requires Valid()
      modifies this
      ensures Valid() && seen == old(seen) + p
    {
      UpdateAppend(Init, seen, p);
      crc := Update(crc, p);
      seen := seen + p;
    }

    /** `Sum32`: the checksum of every byte written so far. */
    method Sum32() returns (sum: bv32)
      requires Valid()
      ensures sum == Checksum(seen)
    {
      sum := crc ^ 0xFFFF_FFFF;
    }
  }
}
