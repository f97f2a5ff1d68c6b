/**
 The CRC-32 of IEEE 802.3 clause 3.2.9 as long division of polynomials over the field of two elements, and that the
 register of `Crc32` computes its remainder.
 */
module CrcDivision {
  import opened Crc32

  // ---------- Long division ----------

  /** The divisor: x^32 and these powers of x. */
  const POWERS: set<nat> := {26, 23, 22, 16, 12, 11, 10, 8, 7, 5, 4, 2, 1, 0}

  /** One step on the coefficients, highest power first: a leading one takes the divisor off, and goes. */
  function TakeOff(p: seq<bool>): (r: seq<bool>)
    requires |p| > 32
    ensures |r| == |p| - 1
  {
    seq(|p| - 1, j requires 0 <= j < |p| - 1 => p[j + 1] != (p[0] && j < 32 && 31 - j in POWERS))
  }

  /** The remainder, of degree 31 at most. */
  function Remainder(p: seq<bool>): (r: seq<bool>)
    requires |p| >= 32
    ensures |r| == 32
    decreases |p|
  {
    if |p| == 32 then p else Remainder(TakeOff(p))
  }

  // ---------- Messages as polynomials ----------

  /** Bit `j` of a register, bit 0 the lowest. */
  function BitOf(c: bv32, j: nat): bool {
    Odd(Iterate(Half, c, j))
  }

  /** The bits of a message in the order of transmission: each byte with its lowest bit first. */
  function MessageBit(data: seq<bv8>, j: nat): bool
    requires j < 8 * |data|
  {
    BitOf(data[j / 8] as bv32, j % 8)
  }

  /** The message times x^32, with the start value, its lowest bit first, added to the first 32 coefficients. */
  function Dividend(start: bv32, data: seq<bv8>): (p: seq<bool>)
    ensures |p| == 32 + 8 * |data|
  {
    seq(32 + 8 * |data|, j requires 0 <= j < 32 + 8 * |data| => DividendAt(start, data, j))
  }

  function DividendAt(start: bv32, data: seq<bv8>, j: nat): bool {
    (j < 32 && BitOf(start, j)) != (j < 8 * |data| && MessageBit(data, j))
  }

  /** A register as coefficients: its lowest bit belongs to x^31. */
  function Coefficients(c: bv32): (r: seq<bool>)
    ensures |r| == 32
  {
    seq(32, j requires 0 <= j < 32 => BitOf(c, j))
  }

  // ---------- Bits ----------

  lemma HalfAdditive()
    ensures Additive(Half, Xor)
  {
    forall a, b ensures Half(Xor(a, b)) == Xor(Half(a), Half(b)) {
      HalfSum(a, b);
    }
  }

  lemma BitSum(x: bv32, y: bv32, j: nat)
    ensures BitOf(Xor(x, y), j) == (BitOf(x, j) != BitOf(y, j))
  {
    HalfAdditive();
    IterateHomomorphic(Half, Xor, x, y, j);
    OddSum(Iterate(Half, x, j), Iterate(Half, y, j));
  }

  lemma {:induction false} NoBits(j: nat)
    ensures !BitOf(0, j)
    decreases j
  {
    assert Half(0) == 0 && !Odd(0);
    if j > 0 {
      NoBits(j - 1);
    }
  }

  lemma {:induction false} BitAfter(c: bv32, i: nat, j: nat)
    ensures BitOf(c, i + j) == BitOf(Iterate(Half, c, i), j)
    decreases i
  {
    if i > 0 {
      BitAfter(Half(c), i - 1, j);
    }
  }

  lemma ByteGone(c: bv32)
    ensures Iterate(Half, c, 8) == c >> 8
  {
    HalfIsShift(c);
    Shifts(c);
    Iterate8(Half, c, c >> 1, c >> 2, c >> 3, c >> 4, c >> 5, c >> 6, c >> 7, c >> 8);
  }

  lemma HalfIsShift(c: bv32)
    ensures Half(c) == c >> 1
  {
  }

  lemma SmallGone(c: bv32)
    requires c <= 0xFF
    ensures c >> 8 == 0
  {
  }

  lemma WordGone(c: bv32)
    ensures (((c >> 8) >> 8) >> 8) >> 8 == 0
  {
  }

  /** A byte has eight bits, */
  lemma HighBits(d: bv8, j: nat)
    requires j >= 8
    ensures !BitOf(d as bv32, j)
  {
    BitAfter(d as bv32, 8, j - 8);
    ByteGone(d as bv32);
    SmallGone(d as bv32);
    NoBits(j - 8);
  }

  lemma BitsGone(c: bv32, d: bv32, e: bv32, j: nat)
    requires Iterate(Half, c, 8) == d && Iterate(Half, d, 8) == e
    ensures BitOf(c, 16 + j) == BitOf(e, j)
  {
    BitAfter(c, 8, 8 + j);
    BitAfter(d, 8, j);
  }

  /** and a register 32. */
  lemma TopBit(c: bv32)
    ensures !BitOf(c, 32)
  {
    var d := c >> 8;
    var e := d >> 8;
    var f := e >> 8;
    ByteGone(c);
    ByteGone(d);
    ByteGone(e);
    ByteGone(f);
    WordGone(c);
    BitsGone(c, d, e, 16);
    BitsGone(e, f, 0, 0);
    NoBits(0);
  }

  lemma DivisorByte0()
    ensures forall j: nat :: j < 8 ==> (BitOf(0xEDB88320, j) <==> 31 - j in POWERS)
  {
    assert Half(0xEDB88320) == 0x76DC4190 && Odd(0xEDB88320) == false;
    assert Half(0x76DC4190) == 0x3B6E20C8 && Odd(0x76DC4190) == false;
    assert Half(0x3B6E20C8) == 0x1DB71064 && Odd(0x3B6E20C8) == false;
    assert Half(0x1DB71064) == 0x0EDB8832 && Odd(0x1DB71064) == false;
    assert Half(0x0EDB8832) == 0x076DC419 && Odd(0x0EDB8832) == false;
    assert Half(0x076DC419) == 0x03B6E20C && Odd(0x076DC419) == true;
    assert Half(0x03B6E20C) == 0x01DB7106 && Odd(0x03B6E20C) == false;
    assert Half(0x01DB7106) == 0x00EDB883 && Odd(0x01DB7106) == false;
    BitAfter(0xEDB88320, 1, 0);
    BitAfter(0xEDB88320, 2, 0);
    BitAfter(0xEDB88320, 3, 0);
    BitAfter(0xEDB88320, 4, 0);
    BitAfter(0xEDB88320, 5, 0);
    BitAfter(0xEDB88320, 6, 0);
    BitAfter(0xEDB88320, 7, 0);
  }

  lemma DivisorByte1()
    ensures forall j: nat :: j < 8 ==> (BitOf(0x00EDB883, j) <==> 23 - j in POWERS)
  {
    assert Half(0x00EDB883) == 0x0076DC41 && Odd(0x00EDB883) == true;
    assert Half(0x0076DC41) == 0x003B6E20 && Odd(0x0076DC41) == true;
    assert Half(0x003B6E20) == 0x001DB710 && Odd(0x003B6E20) == false;
    assert Half(0x001DB710) == 0x000EDB88 && Odd(0x001DB710) == false;
    assert Half(0x000EDB88) == 0x00076DC4 && Odd(0x000EDB88) == false;
    assert Half(0x00076DC4) == 0x0003B6E2 && Odd(0x00076DC4) == false;
    assert Half(0x0003B6E2) == 0x0001DB71 && Odd(0x0003B6E2) == false;
    assert Half(0x0001DB71) == 0x0000EDB8 && Odd(0x0001DB71) == true;
    BitAfter(0x00EDB883, 1, 0);
    BitAfter(0x00EDB883, 2, 0);
    BitAfter(0x00EDB883, 3, 0);
    BitAfter(0x00EDB883, 4, 0);
    BitAfter(0x00EDB883, 5, 0);
    BitAfter(0x00EDB883, 6, 0);
    BitAfter(0x00EDB883, 7, 0);
  }

  lemma DivisorByte2()
    ensures forall j: nat :: j < 8 ==> (BitOf(0x0000EDB8, j) <==> 15 - j in POWERS)
  {
    assert Half(0x0000EDB8) == 0x000076DC && Odd(0x0000EDB8) == false;
    assert Half(0x000076DC) == 0x00003B6E && Odd(0x000076DC) == false;
    assert Half(0x00003B6E) == 0x00001DB7 && Odd(0x00003B6E) == false;
    assert Half(0x00001DB7) == 0x00000EDB && Odd(0x00001DB7) == true;
    assert Half(0x00000EDB) == 0x0000076D && Odd(0x00000EDB) == true;
    assert Half(0x0000076D) == 0x000003B6 && Odd(0x0000076D) == true;
    assert Half(0x000003B6) == 0x000001DB && Odd(0x000003B6) == false;
    assert Half(0x000001DB) == 0x000000ED && Odd(0x000001DB) == true;
    BitAfter(0x0000EDB8, 1, 0);
    BitAfter(0x0000EDB8, 2, 0);
    BitAfter(0x0000EDB8, 3, 0);
    BitAfter(0x0000EDB8, 4, 0);
    BitAfter(0x0000EDB8, 5, 0);
    BitAfter(0x0000EDB8, 6, 0);
    BitAfter(0x0000EDB8, 7, 0);
  }

  lemma DivisorByte3()
    ensures forall j: nat :: j < 8 ==> (BitOf(0x000000ED, j) <==> 7 - j in POWERS)
  {
    assert Half(0x000000ED) == 0x00000076 && Odd(0x000000ED) == true;
    assert Half(0x00000076) == 0x0000003B && Odd(0x00000076) == false;
    assert Half(0x0000003B) == 0x0000001D && Odd(0x0000003B) == true;
    assert Half(0x0000001D) == 0x0000000E && Odd(0x0000001D) == true;
    assert Half(0x0000000E) == 0x00000007 && Odd(0x0000000E) == false;
    assert Half(0x00000007) == 0x00000003 && Odd(0x00000007) == true;
    assert Half(0x00000003) == 0x00000001 && Odd(0x00000003) == true;
    assert Half(0x00000001) == 0x00000000 && Odd(0x00000001) == true;
    BitAfter(0x000000ED, 1, 0);
    BitAfter(0x000000ED, 2, 0);
    BitAfter(0x000000ED, 3, 0);
    BitAfter(0x000000ED, 4, 0);
    BitAfter(0x000000ED, 5, 0);
    BitAfter(0x000000ED, 6, 0);
    BitAfter(0x000000ED, 7, 0);
  }

  /** The polynomial of the register is the divisor, its coefficients in reverse. */
  lemma DivisorBits(j: nat)
    requires j < 32
    ensures BitOf(POLYNOMIAL, j) <==> 31 - j in POWERS
  {
    DivisorByte0();
    DivisorByte1();
    DivisorByte2();
    DivisorByte3();
    ByteGone(POLYNOMIAL);
    ByteGone(0x00EDB883);
    ByteGone(0x0000EDB8);
    if j < 8 {
    } else if j < 16 {
      BitAfter(POLYNOMIAL, 8, j - 8);
    } else if j < 24 {
      BitAfter(POLYNOMIAL, 8, j - 8);
      BitAfter(0x00EDB883, 8, j - 16);
    } else {
      BitAfter(POLYNOMIAL, 8, j - 8);
      BitAfter(0x00EDB883, 8, j - 16);
      BitAfter(0x0000EDB8, 8, j - 24);
    }
  }

  // ---------- One step of the register ----------

  /** The register in front of what is still to be taken in. */
  function Ahead(c: bv32, z: seq<bool>): (p: seq<bool>)
    ensures |p| == |z|
  {
    seq(|z|, j requires 0 <= j < |z| => (j < 32 && BitOf(c, j)) != z[j])
  }

  lemma BitStep(c: bv32, j: nat)
    requires j < 32
    ensures BitOf(Bit(c), j) == (BitOf(c, j + 1) != (BitOf(c, 0) && 31 - j in POWERS))
  {
    BitSum(Half(c), POLYNOMIAL, j);
    DivisorBits(j);
  }

  /** One step of the register is one step of the division. */
  lemma StepTakesOff(c: bv32, z: seq<bool>)
    requires |z| > 32 && !z[0]
    ensures TakeOff(Ahead(c, z)) == Ahead(Bit(c), z[1..])
  {
    TopBit(c);
    forall j: nat | j < |z| - 1 ensures TakeOff(Ahead(c, z))[j] == Ahead(Bit(c), z[1..])[j] {
      if j < 32 {
        BitStep(c, j);
      }
    }
  }

  lemma {:induction false} StepsTakeOff(c: bv32, z: seq<bool>, k: nat)
    requires |z| >= 32 + k && forall j: nat :: j < k ==> !z[j]
    ensures Remainder(Ahead(c, z)) == Remainder(Ahead(Iterate(Bit, c, k), z[k..]))
    decreases k
  {
    if k > 0 {
      StepTakesOff(c, z);
      StepsTakeOff(Bit(c), z[1..], k - 1);
      assert z[1..][k - 1..] == z[k..];
    } else {
      assert z[0..] == z;
    }
  }

  // ---------- Whole messages ----------

  /** The dividend after the first byte, in place. */
  function RestOf(data: seq<bv8>): (z: seq<bool>)
    ensures |z| == 32 + 8 * |data|
  {
    seq(32 + 8 * |data|, j requires 0 <= j < 32 + 8 * |data| => 8 <= j < 8 * |data| && MessageBit(data, j))
  }

  lemma WithByteBits(c: bv32, d: bv8, j: nat)
    ensures BitOf(WithByte(c, d), j) == (BitOf(c, j) != (j < 8 && BitOf(d as bv32, j)))
  {
    BitSum(c, d as bv32, j);
    if j >= 8 {
      HighBits(d, j);
    }
  }

  lemma FirstByteAt(c: bv32, data: seq<bv8>, j: nat)
    requires data != []
    ensures DividendAt(c, data, j)
         == ((j < 32 && BitOf(WithByte(c, data[0]), j)) != (8 <= j < 8 * |data| && MessageBit(data, j)))
  {
    WithByteBits(c, data[0], j);
    if j < 8 {
      assert j / 8 == 0 && j % 8 == j;
    }
  }

  lemma FirstByteIn(c: bv32, data: seq<bv8>)
    requires data != []
    ensures Dividend(c, data) == Ahead(WithByte(c, data[0]), RestOf(data))
  {
    forall j: nat | j < 32 + 8 * |data| ensures Dividend(c, data)[j] == Ahead(WithByte(c, data[0]), RestOf(data))[j] {
      FirstByteAt(c, data, j);
    }
  }

  lemma RestIsNext(c: bv32, data: seq<bv8>)
    requires data != []
    ensures Ahead(c, RestOf(data)[8..]) == Dividend(c, data[1..])
  {
    forall j: nat | j < 24 + 8 * |data| ensures Ahead(c, RestOf(data)[8..])[j] == Dividend(c, data[1..])[j] {
      if j < 8 * (|data| - 1) {
        assert (j + 8) / 8 == j / 8 + 1 && (j + 8) % 8 == j % 8;
      }
    }
  }

  /**
   The register that the code computes holds the remainder of the message by the divisor, with its bits reversed, for
   every start value and every string of bytes.
   */
  lemma {:induction false} ReferenceIsRemainder(c: bv32, data: seq<bv8>)
    ensures Coefficients(Reference(c, data)) == Remainder(Dividend(c, data))
    decreases |data|
  {
    if data == [] {
      assert Dividend(c, data) == Coefficients(c);
    } else {
      var d := WithByte(c, data[0]);
      FirstByteIn(c, data);
      StepsTakeOff(d, RestOf(data), 8);
      RestIsNext(Step(d), data);
      assert Absorb(Step)(c, data[0]) == Step(d);
      ReferenceIsRemainder(Step(d), data[1..]);
    }
  }

  // ---------- The check value ----------

  lemma ByteIn(c: bv32, d: bv8, x: bv32)
    requires c ^ (d as bv32) == x
    ensures Absorb(Step)(c, d) == Step(x)
  {
    assert WithByte(c, d) == x;
  }

  lemma CheckByte1()
    ensures Absorb(Step)(0xFFFFFFFF, 0x31) == 0x7C231048
  {
    ByteIn(0xFFFFFFFF, 0x31, 0xFFFFFFCE);
    Iterate8(Bit, 0xFFFFFFCE, 0x7FFFFFE7, 0xD2477CD3, 0x849B3D49, 0xAFF51D84,
             0x57FA8EC2, 0x2BFD4761, 0xF8462090, 0x7C231048);
  }

  lemma CheckByte2()
    ensures Absorb(Step)(0x7C231048, 0x32) == 0xB0ACBB32
  {
    ByteIn(0x7C231048, 0x32, 0x7C23107A);
    Iterate8(Bit, 0x7C23107A, 0x3E11883D, 0xF2B0473E, 0x7958239F, 0xD11492EF,
             0x8532CA57, 0xAF21E60B, 0xBA287025, 0xB0ACBB32);
  }

  lemma CheckByte3()
    ensures Absorb(Step)(0xB0ACBB32, 0x33) == 0x77B79C2D
  {
    ByteIn(0xB0ACBB32, 0x33, 0xB0ACBB01);
    Iterate8(Bit, 0xB0ACBB01, 0xB5EEDEA0, 0x5AF76F50, 0x2D7BB7A8, 0x16BDDBD4,
             0x0B5EEDEA, 0x05AF76F5, 0xEF6F385A, 0x77B79C2D);
  }

  lemma CheckByte4()
    ensures Absorb(Step)(0x77B79C2D, 0x34) == 0x641C1F5C
  {
    ByteIn(0x77B79C2D, 0x34, 0x77B79C19);
    Iterate8(Bit, 0x77B79C19, 0xD6634D2C, 0x6B31A696, 0x3598D34B, 0xF774EA85,
             0x9602F662, 0x4B017B31, 0xC8383EB8, 0x641C1F5C);
  }

  lemma CheckByte5()
    ensures Absorb(Step)(0x641C1F5C, 0x35) == 0x340AC5E3
  {
    ByteIn(0x641C1F5C, 0x35, 0x641C1F69);
    Iterate8(Bit, 0x641C1F69, 0xDFB68C94, 0x6FDB464A, 0x37EDA325, 0xF64E52B2,
             0x7B272959, 0xD02B178C, 0x68158BC6, 0x340AC5E3);
  }

  lemma CheckByte6()
    ensures Absorb(Step)(0x340AC5E3, 0x36) == 0xF68D2C9E
  {
    ByteIn(0x340AC5E3, 0x36, 0x340AC5D5);
    Iterate8(Bit, 0x340AC5D5, 0xF7BDE1CA, 0x7BDEF0E5, 0xD057FB52, 0x682BFDA9,
             0xD9AD7DF4, 0x6CD6BEFA, 0x366B5F7D, 0xF68D2C9E);
  }

  lemma CheckByte7()
    ensures Absorb(Step)(0xF68D2C9E, 0x37) == 0xAFFC9660
  {
    ByteIn(0xF68D2C9E, 0x37, 0xF68D2CA9);
    Iterate8(Bit, 0xF68D2CA9, 0x96FE1574, 0x4B7F0ABA, 0x25BF855D, 0xFF67418E,
             0x7FB3A0C7, 0xD2615343, 0x84882A81, 0xAFFC9660);
  }

  lemma CheckByte8()
    ensures Absorb(Step)(0xAFFC9660, 0x38) == 0x651F2550
  {
    ByteIn(0xAFFC9660, 0x38, 0xAFFC9658);
    Iterate8(Bit, 0xAFFC9658, 0x57FE4B2C, 0x2BFF2596, 0x15FF92CB, 0xE7474A45,
             0x9E1B2602, 0x4F0D9301, 0xCA3E4AA0, 0x651F2550);
  }

  lemma CheckByte9()
    ensures Absorb(Step)(0x651F2550, 0x39) == 0x340BC6D9
  {
    ByteIn(0x651F2550, 0x39, 0x651F2569);
    Iterate8(Bit, 0x651F2569, 0xDF371194, 0x6F9B88CA, 0x37CDC465, 0xF65E6112,
             0x7B2F3089, 0xD02F1B64, 0x68178DB2, 0x340BC6D9);
  }

  /** The digits 1 to 9. */
  function Digits(): seq<bv8> {
    [0x31, 0x32, 0x33, 0x34, 0x35, 0x36, 0x37, 0x38, 0x39]
  }

  lemma NineBytes<S, B>(absorb: (S, B) -> S, data: seq<B>, c: seq<S>)
    requires |data| == 9 && |c| == 10 && forall i: nat :: i < 9 ==> absorb(c[i], data[i]) == c[i + 1]
    ensures Fold(absorb, c[0], data) == c[9]
  {
    var i := 0;
    assert data[0..] == data;
    while i < 9
      invariant i <= 9 && Fold(absorb, c[0], data) == Fold(absorb, c[i], data[i..])
    {
      FoldOne(absorb, c[i], data, i);
      i := i + 1;
    }
    assert data[9..] == [];
  }

  lemma DigitsFold()
    ensures Reference(0xFFFF_FFFF, Digits()) == 0x340BC6D9
  {
    CheckByte1();
    CheckByte2();
    CheckByte3();
    CheckByte4();
    CheckByte5();
    CheckByte6();
    CheckByte7();
    CheckByte8();
    CheckByte9();
    NineBytes(Absorb(Step), Digits(), [0xFFFFFFFF, 0x7C231048, 0xB0ACBB32, 0x77B79C2D, 0x641C1F5C,
                                       0x340AC5E3, 0xF68D2C9E, 0xAFFC9660, 0x651F2550, 0x340BC6D9]);
  }

  /** The published check value of this code. */
  lemma CheckValue()
    ensures Xor(Reference(0xFFFF_FFFF, Digits()), 0xFFFF_FFFF) == 0xCBF4_3926
  {
    DigitsFold();
  }
}
