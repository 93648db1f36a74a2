/**
 * The Nikobus PC-Link frame codec of nikobusconnect/protocol.py: fixed-width
 * hexadecimal formatting, the two checksums, appending them, assembling a
 * command frame and mapping a channel to its group.
 *
 * The CRC registers are bit-vectors: the source masks its Python integers
 * with 0xFFFF and 0xFF after every shift, which is exactly what bv16 and bv8
 * arithmetic does, so the range of the results ([0, 0xFFFF] and [0, 0xFF]) is
 * carried by the types.
 */
module Protocol {
  import opened PyBuiltins

  // ---------------------------------------------------------------------------
  // int_to_hex
  // ---------------------------------------------------------------------------

  /** `('{:0' + str(digits) + 'X}').format(value)`: zero-padded to at least `digits`, never truncated. */
  function IntToHex(value: nat, digits: nat): (s: string)
    ensures IsUpperHexString(s) && |s| >= digits && |s| >= 1
  {
    var h := FormatHex(value);
    if |h| < digits then Zeros(digits - |h|) + h else h
  }

  /** The digits always read back as the value. */
  lemma IntToHexParses(value: nat, digits: nat)
    ensures ParseHex(IntToHex(value, digits)) == value
  {
    var h := FormatHex(value);
    FormatHexParses(value);
    var r := IntToHex(value, digits);
    if |h| < digits {
      var padded := Zeros(digits - |h|) + h;
      ParseHexLeadingZeros(digits - |h|, h);
      assert ParseHex(padded) == value;
      assert r == padded;
    } else {
      assert r == h;
    }
  }

  /** A value below 16^digits is written in exactly `digits` digits. */
  lemma IntToHexFits(value: nat, digits: nat)
    requires digits >= 1 && value < Pow16(digits)
    ensures |IntToHex(value, digits)| == digits
    ensures ParseHex(IntToHex(value, digits)) == value
  {
    FormatHexLength(value, digits);
    IntToHexParses(value, digits);
  }

  /** A larger value is not cut down: it takes more than `digits` digits. */
  lemma IntToHexOverflows(value: nat, digits: nat)
    requires digits >= 1 && value >= Pow16(digits)
    ensures |IntToHex(value, digits)| > digits
    ensures IntToHex(value, digits) == FormatHex(value)
    ensures ParseHex(IntToHex(value, digits)) == value
  {
    FormatHexLength(value, digits);
    IntToHexParses(value, digits);
  }

  /** Two upper-case digits are the canonical two-digit form of their own value. */
  lemma IntToHexOfTwoDigits(s: string)
    requires |s| == 2 && IsUpperHexString(s)
    ensures IntToHex(ParseHex(s), 2) == s
  {
    var v := ParseHex(s);
    ParseHexOfTwo(s);
    UpperHexValueInjective(HexChar(HexValue(s[1])), s[1]);
    if HexValue(s[0]) == 0 {
      assert v == HexValue(s[1]);
      assert s[0] == '0';
    } else {
      assert v / 16 == HexValue(s[0]) && v % 16 == HexValue(s[1]);
      UpperHexValueInjective(HexChar(HexValue(s[0])), s[0]);
      assert FormatHex(v / 16) == [s[0]];
      assert FormatHex(v) == [s[0]] + [s[1]];
    }
  }

  lemma ParseHexOfTwo(s: string)
    requires |s| == 2 && IsHexString(s)
    ensures ParseHex(s) == HexValue(s[0]) * 16 + HexValue(s[1])
  {
    assert s[..1][..0] == [];
    assert ParseHex(s[..1]) == HexValue(s[0]);
  }

  /** A byte as two digits. */
  function Hex2(b: Byte): (s: string)
    ensures |s| == 2 && IsUpperHexString(s) && ParseHex(s) == b
  {
    IntToHexFits(b, 2);
    IntToHex(b, 2)
  }

  // ---------------------------------------------------------------------------
  // calc_crc1: CRC-16, polynomial 0x1021, initial value 0xFFFF, MSB first
  // ---------------------------------------------------------------------------

  /** One iteration of the inner loop of calc_crc1. */
  function Crc16Shift(crc: bv16): bv16 {
    if (crc & 0x8000) != 0 then (crc << 1) ^ 0x1021 else crc << 1
  }

  function Crc16Shifts(crc: bv16, n: nat): bv16 {
    if n == 0 then crc else Crc16Shift(Crc16Shifts(crc, n - 1))
  }

  /** One iteration of the outer loop: the byte goes into the high half, then eight shifts. */
  function Crc16Byte(crc: bv16, b: Byte): bv16 {
    Crc16Shifts(crc ^ ((b as bv16) << 8), 8)
  }

  /** The CRC-16 register after feeding `bytes`, starting from 0xFFFF. */
  function Crc16Bytes(bytes: seq<Byte>): bv16
    decreases |bytes|, 1
  {
    if |bytes| == 0 then 0xFFFF else Crc16Last(bytes, 8)
  }

  /**
   * The register part-way through the last byte: the bytes before it fed,
   * the last byte XORed into the high half, then `n` shifts. The shift is
   * written out rather than calling Crc16Shift, so that a CRC-16 value met
   * in a proof unfolds one step at a time (see Crc16LastShifts).
   */
  function Crc16Last(bytes: seq<Byte>, n: nat): bv16
    requires |bytes| > 0
    decreases |bytes|, 0, n
  {
    if n == 0 then Crc16Bytes(bytes[..|bytes| - 1]) ^ ((bytes[|bytes| - 1] as bv16) << 8)
    else
      var c := Crc16Last(bytes, n - 1);
      if (c & 0x8000) != 0 then (c << 1) ^ 0x1021 else c << 1
  }

  lemma {:induction false} Crc16LastShifts(bytes: seq<Byte>, n: nat)
    requires |bytes| > 0
    ensures Crc16Last(bytes, n) == Crc16Shifts(Crc16Bytes(bytes[..|bytes| - 1]) ^ ((bytes[|bytes| - 1] as bv16) << 8), n)
  {
    if n > 0 {
      Crc16LastShifts(bytes, n - 1);
      Crc16ShiftUnfold(Crc16Last(bytes, n - 1));
    }
  }

  /** `int(data[2*j : 2*j + 2], 16)` */
  function PairValue(data: string, j: nat): (b: Byte)
    requires IsHexString(data) && j < |data| / 2
  {
    assert Pow16(2) == 256;
    ParseHex(data[2 * j..2 * j + 2])
  }

  /** The bytes calc_crc1 reads from its hexadecimal input; a trailing odd digit is ignored. */
  function HexPairs(data: string): (bytes: seq<Byte>)
    requires IsHexString(data)
    ensures |bytes| == |data| / 2
    ensures forall j :: 0 <= j < |bytes| ==> bytes[j] == PairValue(data, j)
  {
    seq(|data| / 2, j requires 0 <= j < |data| / 2 => PairValue(data, j))
  }

  /** The value calc_crc1 returns. */
  function Crc16(data: string): bv16
    requires IsHexString(data)
  {
    Crc16Bytes(HexPairs(data))
  }

  /** calc_crc1, with its two nested loops. */
  method CalcCrc1(data: string) returns (crc: bv16)
    requires IsHexString(data)
    ensures crc == Crc16(data)
  {
    ghost var bytes := HexPairs(data);
    crc := 0xFFFF;
    for j := 0 to |data| / 2
      invariant crc == Crc16Bytes(bytes[..j])
    {
      var b := PairValue(data, j);
      Crc16BytesStep(bytes, j, crc, b);
      crc := crc ^ ((b as bv16) << 8);
      ghost var loaded := crc;
      for k := 0 to 8
        invariant crc == Crc16Shifts(loaded, k)
      {
        Crc16ShiftUnfold(crc);
        Crc16ShiftsSucc(loaded, k);
        if (crc & 0x8000) != 0 {
          crc := (crc << 1) ^ 0x1021;
        } else {
          crc := crc << 1;
        }
      }
    }
    assert bytes[..|data| / 2] == bytes;
  }

  /** One pass of the inner loop of calc_crc1, unfolded. */
  lemma Crc16ShiftUnfold(c: bv16)
    ensures Crc16Shift(c) == if (c & 0x8000) != 0 then (c << 1) ^ 0x1021 else c << 1
  {
  }

  lemma Crc16ShiftsSucc(x: bv16, k: nat)
    ensures Crc16Shifts(x, k + 1) == Crc16Shift(Crc16Shifts(x, k))
  {
  }

  /** One pass of the outer loop of calc_crc1 extends the bytes fed so far by one. */
  lemma Crc16BytesStep(bytes: seq<Byte>, j: nat, crc: bv16, b: Byte)
    requires j < |bytes| && bytes[j] == b && crc == Crc16Bytes(bytes[..j])
    ensures Crc16Bytes(bytes[..j + 1]) == Crc16Shifts(crc ^ ((b as bv16) << 8), 8)
  {
    assert bytes[..j + 1] == bytes[..j] + [b];
    Crc16BytesSnoc(bytes[..j], b);
  }

  /** Eight shifts, written out. */
  lemma Crc16ShiftsEight(x: bv16)
    ensures Crc16Shifts(x, 8) == Crc16Shift(Crc16Shift(Crc16Shift(Crc16Shift(Crc16Shift(Crc16Shift(Crc16Shift(Crc16Shift(x))))))))
  {
    assert Crc16Shifts(x, 1) == Crc16Shift(Crc16Shifts(x, 0));
    assert Crc16Shifts(x, 2) == Crc16Shift(Crc16Shifts(x, 1));
    assert Crc16Shifts(x, 3) == Crc16Shift(Crc16Shifts(x, 2));
    assert Crc16Shifts(x, 4) == Crc16Shift(Crc16Shifts(x, 3));
    assert Crc16Shifts(x, 5) == Crc16Shift(Crc16Shifts(x, 4));
    assert Crc16Shifts(x, 6) == Crc16Shift(Crc16Shifts(x, 5));
    assert Crc16Shifts(x, 7) == Crc16Shift(Crc16Shifts(x, 6));
  }

  /** Feeding one more byte is one pass of the outer loop. */
  lemma Crc16BytesSnoc(bytes: seq<Byte>, b: Byte)
    ensures Crc16Bytes(bytes + [b]) == Crc16Byte(Crc16Bytes(bytes), b)
  {
    assert (bytes + [b])[..|bytes|] == bytes;
    Crc16LastShifts(bytes + [b], 8);
  }

  /** The CRC over "110000" is B8CF, the value inside the handshake frame $10110000B8CF9D. */
  lemma Crc16HandshakeStep1()
    ensures Crc16Byte(0xFFFF, 0x11) == 0xE3E0
  {
      assert (0x11 as bv16) << 8 == 0x1100;
      Crc16ShiftsEight(0xEEFF);
  }

  lemma Crc16HandshakeStep2()
    ensures Crc16Byte(0xE3E0, 0x00) == 0x2D4D
  {
      assert (0x00 as bv16) << 8 == 0x0000;
      Crc16ShiftsEight(0xE3E0);
  }

  lemma Crc16HandshakeStep3()
    ensures Crc16Byte(0x2D4D, 0x00) == 0xB8CF
  {
      assert (0x00 as bv16) << 8 == 0x0000;
      Crc16ShiftsEight(0x2D4D);
  }

  lemma Crc16HandshakePrefix1()
    ensures Crc16Bytes([0x11]) == 0xE3E0
  {
    Crc16HandshakeStep1();
    assert [] + [0x11] == [0x11];
    Crc16BytesSnoc([], 0x11);
  }

  lemma Crc16HandshakePrefix2()
    ensures Crc16Bytes([0x11, 0x00]) == 0x2D4D
  {
    Crc16HandshakePrefix1();
    Crc16HandshakeStep2();
    assert [0x11] + [0x00] == [0x11, 0x00];
    Crc16BytesSnoc([0x11], 0x00);
  }

  lemma Crc16HandshakeBytes()
    ensures Crc16Bytes([0x11, 0x00, 0x00]) == 0xB8CF
  {
    Crc16HandshakePrefix2();
    Crc16HandshakeStep3();
    assert [0x11, 0x00] + [0x00] == [0x11, 0x00, 0x00];
    Crc16BytesSnoc([0x11, 0x00], 0x00);
  }

  /** "110000" reads as the bytes 11 00 00. */
  lemma HandshakePairs(data: string)
    requires data == "110000"
    ensures IsHexString(data) && HexPairs(data) == [0x11, 0x00, 0x00]
  {
    ParseHexOfTwo(data[0..2]);
    ParseHexOfTwo(data[2..4]);
    ParseHexOfTwo(data[4..6]);
  }

  lemma Crc16HandshakeVector()
    ensures Crc16("110000") == 0xB8CF
  {
    HandshakePairs("110000");
    Crc16HandshakeBytes();
  }

  /**
   * The check value of the parameters used (the CRC over the ASCII bytes of
   * "123456789") is 29B1, the catalogued check value of CRC-16/CCITT-FALSE.
   */
  lemma Crc16CheckStep1()
    ensures Crc16Bytes([0x31]) == 0xC782
  {
    assert (0x31 as bv16) << 8 == 0x3100;
    Crc16ShiftsEight(0xCEFF);
    assert [] + [0x31] == [0x31];
    Crc16BytesSnoc([], 0x31);
  }

  lemma Crc16CheckStep2()
    ensures Crc16Bytes([0x31, 0x32]) == 0x3DBA
  {
    Crc16CheckStep1();
    assert (0x32 as bv16) << 8 == 0x3200;
    Crc16ShiftsEight(0xF582);
    assert [0x31] + [0x32] == [0x31, 0x32];
    Crc16BytesSnoc([0x31], 0x32);
  }

  lemma Crc16CheckStep3()
    ensures Crc16Bytes([0x31, 0x32, 0x33]) == 0x5BCE
  {
    Crc16CheckStep2();
    assert (0x33 as bv16) << 8 == 0x3300;
    Crc16ShiftsEight(0x0EBA);
    assert [0x31, 0x32] + [0x33] == [0x31, 0x32, 0x33];
    Crc16BytesSnoc([0x31, 0x32], 0x33);
  }

  lemma Crc16CheckStep4()
    ensures Crc16Bytes([0x31, 0x32, 0x33, 0x34]) == 0x5349
  {
    Crc16CheckStep3();
    assert (0x34 as bv16) << 8 == 0x3400;
    Crc16ShiftsEight(0x6FCE);
    assert [0x31, 0x32, 0x33] + [0x34] == [0x31, 0x32, 0x33, 0x34];
    Crc16BytesSnoc([0x31, 0x32, 0x33], 0x34);
  }

  lemma Crc16CheckStep5()
    ensures Crc16Bytes([0x31, 0x32, 0x33, 0x34, 0x35]) == 0x4560
  {
    Crc16CheckStep4();
    assert (0x35 as bv16) << 8 == 0x3500;
    Crc16ShiftsEight(0x6649);
    assert [0x31, 0x32, 0x33, 0x34] + [0x35] == [0x31, 0x32, 0x33, 0x34, 0x35];
    Crc16BytesSnoc([0x31, 0x32, 0x33, 0x34], 0x35);
  }

  lemma Crc16CheckStep6()
    ensures Crc16Bytes([0x31, 0x32, 0x33, 0x34, 0x35, 0x36]) == 0x2EF4
  {
    Crc16CheckStep5();
    assert (0x36 as bv16) << 8 == 0x3600;
    Crc16ShiftsEight(0x7360);
    assert [0x31, 0x32, 0x33, 0x34, 0x35] + [0x36] == [0x31, 0x32, 0x33, 0x34, 0x35, 0x36];
    Crc16BytesSnoc([0x31, 0x32, 0x33, 0x34, 0x35], 0x36);
  }

  lemma Crc16CheckStep7()
    ensures Crc16Bytes([0x31, 0x32, 0x33, 0x34, 0x35, 0x36, 0x37]) == 0x7718
  {
    Crc16CheckStep6();
    assert (0x37 as bv16) << 8 == 0x3700;
    Crc16ShiftsEight(0x19F4);
    assert [0x31, 0x32, 0x33, 0x34, 0x35, 0x36] + [0x37] == [0x31, 0x32, 0x33, 0x34, 0x35, 0x36, 0x37];
    Crc16BytesSnoc([0x31, 0x32, 0x33, 0x34, 0x35, 0x36], 0x37);
  }

  lemma Crc16CheckStep8()
    ensures Crc16Bytes([0x31, 0x32, 0x33, 0x34, 0x35, 0x36, 0x37, 0x38]) == 0xA12B
  {
    Crc16CheckStep7();
    assert (0x38 as bv16) << 8 == 0x3800;
    Crc16ShiftsEight(0x4F18);
    assert [0x31, 0x32, 0x33, 0x34, 0x35, 0x36, 0x37] + [0x38] == [0x31, 0x32, 0x33, 0x34, 0x35, 0x36, 0x37, 0x38];
    Crc16BytesSnoc([0x31, 0x32, 0x33, 0x34, 0x35, 0x36, 0x37], 0x38);
  }

  lemma Crc16CheckValue()
    ensures Crc16Bytes([0x31, 0x32, 0x33, 0x34, 0x35, 0x36, 0x37, 0x38, 0x39]) == 0x29B1
  {
    Crc16CheckStep8();
    assert (0x39 as bv16) << 8 == 0x3900;
    Crc16ShiftsEight(0x982B);
    assert [0x31, 0x32, 0x33, 0x34, 0x35, 0x36, 0x37, 0x38] + [0x39] == [0x31, 0x32, 0x33, 0x34, 0x35, 0x36, 0x37, 0x38, 0x39];
    Crc16BytesSnoc([0x31, 0x32, 0x33, 0x34, 0x35, 0x36, 0x37, 0x38], 0x39);
  }

  /** calc_crc1 pairs digits up from the left, so one unpaired final digit does not contribute. */
  lemma Crc16IgnoresOddDigit(data: string, c: char)
    requires IsHexString(data) && |data| % 2 == 0 && IsHexDigit(c)
    ensures IsHexString(data + [c]) && Crc16(data + [c]) == Crc16(data)
  {
    var d := data + [c];
    assert forall j :: 0 <= j < |data| / 2 ==> d[2 * j..2 * j + 2] == data[2 * j..2 * j + 2];
    assert HexPairs(d) == HexPairs(data);
  }

  // ---------------------------------------------------------------------------
  // calc_crc2: CRC-8, polynomial 0x99, initial value 0, over the characters
  // ---------------------------------------------------------------------------

  /** One iteration of the inner loop of calc_crc2. */
  function Crc8Shift(crc: bv8): bv8 {
    if (crc & 0x80) != 0 then (crc << 1) ^ 0x99 else crc << 1
  }

  function Crc8Shifts(crc: bv8, n: nat): bv8 {
    if n == 0 then crc else Crc8Shift(Crc8Shifts(crc, n - 1))
  }

  /**
   * The part of `ord(c)` that reaches the register. The source XORs the whole
   * code point in; the first masked shift only reads bits 0 to 7 of the
   * result, so taking the code point modulo 256 gives the same register.
   */
  function CharByte(c: char): Byte {
    (c as int) % 256
  }

  function Crc8Char(crc: bv8, c: char): bv8 {
    Crc8Shifts(crc ^ (CharByte(c) as bv8), 8)
  }

  /** The value calc_crc2 returns: the register after every character of `data`. */
  function Crc8(data: string): bv8
    decreases |data|, 1
  {
    if |data| == 0 then 0 else Crc8Last(data, 8)
  }

  /**
   * The register part-way through the last character: the characters
   * before it fed, the last one XORed in, then `n` shifts. As in Crc16Last,
   * the shift is written out so that a CRC-8 value unfolds one step at a time.
   */
  function Crc8Last(data: string, n: nat): bv8
    requires |data| > 0
    decreases |data|, 0, n
  {
    if n == 0 then Crc8(data[..|data| - 1]) ^ (CharByte(data[|data| - 1]) as bv8)
    else
      var c := Crc8Last(data, n - 1);
      if (c & 0x80) != 0 then (c << 1) ^ 0x99 else c << 1
  }

  lemma {:induction false} Crc8LastShifts(data: string, n: nat)
    requires |data| > 0
    ensures Crc8Last(data, n) == Crc8Shifts(Crc8(data[..|data| - 1]) ^ (CharByte(data[|data| - 1]) as bv8), n)
  {
    if n > 0 {
      Crc8LastShifts(data, n - 1);
      Crc8ShiftUnfold(Crc8Last(data, n - 1));
    }
  }

  /** Feeding one more character is one pass of the outer loop. */
  lemma Crc8Snoc(data: string)
    requires |data| > 0
    ensures Crc8(data) == Crc8Char(Crc8(data[..|data| - 1]), data[|data| - 1])
  {
    Crc8LastShifts(data, 8);
  }

  /** calc_crc2, with its two nested loops. */
  method CalcCrc2(data: string) returns (crc: bv8)
    ensures crc == Crc8(data)
  {
    crc := 0;
    for i := 0 to |data|
      invariant crc == Crc8(data[..i])
    {
      crc := crc ^ (CharByte(data[i]) as bv8);
      ghost var loaded := crc;
      for k := 0 to 8
        invariant crc == Crc8Shifts(loaded, k)
      {
        Crc8ShiftUnfold(crc);
        Crc8ShiftsSucc(loaded, k);
        if (crc & 0x80) != 0 {
          crc := (crc << 1) ^ 0x99;
        } else {
          crc := crc << 1;
        }
      }
      assert data[..i + 1][..i] == data[..i];
      Crc8Snoc(data[..i + 1]);
    }
    assert data[..|data|] == data;
  }

  /** One pass of the inner loop of calc_crc2, unfolded. */
  lemma Crc8ShiftUnfold(c: bv8)
    ensures Crc8Shift(c) == if (c & 0x80) != 0 then (c << 1) ^ 0x99 else c << 1
  {
  }

  lemma Crc8ShiftsSucc(x: bv8, k: nat)
    ensures Crc8Shifts(x, k + 1) == Crc8Shift(Crc8Shifts(x, k))
  {
  }

  /** Eight shifts, written out. */
  lemma Crc8ShiftsEight(x: bv8)
    ensures Crc8Shifts(x, 8) == Crc8Shift(Crc8Shift(Crc8Shift(Crc8Shift(Crc8Shift(Crc8Shift(Crc8Shift(Crc8Shift(x))))))))
  {
    assert Crc8Shifts(x, 1) == Crc8Shift(Crc8Shifts(x, 0));
    assert Crc8Shifts(x, 2) == Crc8Shift(Crc8Shifts(x, 1));
    assert Crc8Shifts(x, 3) == Crc8Shift(Crc8Shifts(x, 2));
    assert Crc8Shifts(x, 4) == Crc8Shift(Crc8Shifts(x, 3));
    assert Crc8Shifts(x, 5) == Crc8Shift(Crc8Shifts(x, 4));
    assert Crc8Shifts(x, 6) == Crc8Shift(Crc8Shifts(x, 5));
    assert Crc8Shifts(x, 7) == Crc8Shift(Crc8Shifts(x, 6));
  }

  /** The CRC-8 over "$10110000B8CF" is 9D, the last two digits of the handshake frame. */
  lemma Crc8HandshakeStep1()
    ensures Crc8("$") == 0xD3
  {
    assert CharByte('$') as bv8 == 0x24;
    Crc8ShiftsEight(0x24);
    assert "$"[..0] == "";
    Crc8Snoc("$");
  }

  lemma Crc8HandshakeStep2()
    ensures Crc8("$1") == 0xFF
  {
    Crc8HandshakeStep1();
    assert CharByte('1') as bv8 == 0x31;
    Crc8ShiftsEight(0xE2);
    assert "$1"[..1] == "$";
    Crc8Snoc("$1");
  }

  lemma Crc8HandshakeStep3()
    ensures Crc8("$10") == 0xB2
  {
    Crc8HandshakeStep2();
    assert CharByte('0') as bv8 == 0x30;
    Crc8ShiftsEight(0xCF);
    assert "$10"[..2] == "$1";
    Crc8Snoc("$10");
  }

  lemma Crc8HandshakeStep4()
    ensures Crc8("$101") == 0x42
  {
    Crc8HandshakeStep3();
    assert CharByte('1') as bv8 == 0x31;
    Crc8ShiftsEight(0x83);
    assert "$101"[..3] == "$10";
    Crc8Snoc("$101");
  }

  lemma Crc8HandshakeStep5()
    ensures Crc8("$1011") == 0x18
  {
    Crc8HandshakeStep4();
    assert CharByte('1') as bv8 == 0x31;
    Crc8ShiftsEight(0x73);
    assert "$1011"[..4] == "$101";
    Crc8Snoc("$1011");
  }

  lemma Crc8HandshakeStep6()
    ensures Crc8("$10110") == 0x1B
  {
    Crc8HandshakeStep5();
    assert CharByte('0') as bv8 == 0x30;
    Crc8ShiftsEight(0x28);
    assert "$10110"[..5] == "$1011";
    Crc8Snoc("$10110");
  }

  lemma Crc8HandshakeStep7()
    ensures Crc8("$101100") == 0x29
  {
    Crc8HandshakeStep6();
    assert CharByte('0') as bv8 == 0x30;
    Crc8ShiftsEight(0x2B);
    assert "$101100"[..6] == "$10110";
    Crc8Snoc("$101100");
  }

  lemma Crc8HandshakeStep8()
    ensures Crc8("$1011000") == 0x90
  {
    Crc8HandshakeStep7();
    assert CharByte('0') as bv8 == 0x30;
    Crc8ShiftsEight(0x19);
    assert "$1011000"[..7] == "$101100";
    Crc8Snoc("$1011000");
  }

  lemma Crc8HandshakeStep9()
    ensures Crc8("$10110000") == 0x6C
  {
    Crc8HandshakeStep8();
    assert CharByte('0') as bv8 == 0x30;
    Crc8ShiftsEight(0xA0);
    assert "$10110000"[..8] == "$1011000";
    Crc8Snoc("$10110000");
  }

  lemma Crc8HandshakeStep10()
    ensures Crc8("$10110000B") == 0x7F
  {
    Crc8HandshakeStep9();
    assert CharByte('B') as bv8 == 0x42;
    Crc8ShiftsEight(0x2E);
    assert "$10110000B"[..9] == "$10110000";
    Crc8Snoc("$10110000B");
  }

  lemma Crc8HandshakeStep11()
    ensures Crc8("$10110000B8") == 0xC5
  {
    Crc8HandshakeStep10();
    assert CharByte('8') as bv8 == 0x38;
    Crc8ShiftsEight(0x47);
    assert "$10110000B8"[..10] == "$10110000B";
    Crc8Snoc("$10110000B8");
  }

  lemma Crc8HandshakeStep12()
    ensures Crc8("$10110000B8C") == 0x14
  {
    Crc8HandshakeStep11();
    assert CharByte('C') as bv8 == 0x43;
    Crc8ShiftsEight(0x86);
    assert "$10110000B8C"[..11] == "$10110000B8";
    Crc8Snoc("$10110000B8C");
  }

  lemma Crc8HandshakeVector()
    ensures Crc8("$10110000B8CF") == 0x9D
  {
    Crc8HandshakeStep12();
    assert CharByte('F') as bv8 == 0x46;
    Crc8ShiftsEight(0x52);
    assert "$10110000B8CF"[..12] == "$10110000B8C";
    Crc8Snoc("$10110000B8CF");
  }

  // ---------------------------------------------------------------------------
  // append_crc1, append_crc2
  // ---------------------------------------------------------------------------

  /** append_crc1: the data, then the four digits of its CRC-16. */
  function AppendCrc1(data: string): (r: string)
    requires IsHexString(data)
    ensures |r| == |data| + 4 && r[..|data|] == data
    ensures IsUpperHexString(r[|data|..]) && ParseHex(r[|data|..]) == Crc16(data) as int
  {
    IntToHexFits(Crc16(data) as int, 4);
    var crc := IntToHex(Crc16(data) as int, 4);
    assert (data + crc)[|data|..] == crc;
    data + crc
  }

  /** append_crc2: the text, then the two digits of its CRC-8. */
  function AppendCrc2(data: string): (r: string)
    ensures |r| == |data| + 2 && r[..|data|] == data
    ensures IsUpperHexString(r[|data|..]) && ParseHex(r[|data|..]) == Crc8(data) as int
  {
    IntToHexFits(Crc8(data) as int, 2);
    var crc := IntToHex(Crc8(data) as int, 2);
    assert (data + crc)[|data|..] == crc;
    data + crc
  }

  // ---------------------------------------------------------------------------
  // make_pc_link_command
  // ---------------------------------------------------------------------------

  /** A module address as the source accepts it: `int(addr, 16)` of plain hexadecimal digits. */
  predicate IsAddress(addr: string) {
    |addr| > 0 && IsHexString(addr)
  }

  /** `(int(addr, 16) >> 0) & 0xFF`, sent first. */
  function AddressLow(addr: string): Byte
    requires IsAddress(addr)
  {
    ParseHex(addr) % 256
  }

  /** `(int(addr, 16) >> 8) & 0xFF`, sent second. */
  function AddressHigh(addr: string): Byte
    requires IsAddress(addr)
  {
    (ParseHex(addr) / 256) % 256
  }

  /** `args.hex().upper()`: two upper-case digits per byte. */
  function ArgsHex(args: seq<Byte>): (s: string)
    ensures |s| == 2 * |args| && IsUpperHexString(s)
  {
    if |args| == 0 then [] else Hex2(args[0]) + ArgsHex(args[1..])
  }

  /** The function code, the address low byte first, then the arguments. */
  function CommandBody(func: nat, addr: string, args: seq<Byte>): (s: string)
    requires IsAddress(addr)
    ensures IsUpperHexString(s) && |s| >= 6 + 2 * |args|
  {
    IntToHex(func, 2) + Hex2(AddressLow(addr)) + Hex2(AddressHigh(addr)) + ArgsHex(args)
  }

  /**
   * make_pc_link_command as written: the length field is
   * `len(data_with_crc1) // 2 + 1`, a count of bytes where the listener
   * expects a count of characters (see Listener.AsWrittenNeverValid).
   */
  function MakePcLinkCommandAsWritten(func: nat, addr: string, args: seq<Byte>): string
    requires IsAddress(addr)
  {
    var withCrc1 := AppendCrc1(CommandBody(func, addr, args));
    AppendCrc2("$" + IntToHex(|withCrc1| / 2 + 1, 2) + withCrc1)
  }

  /**
   * make_pc_link_command with the length field the listener checks and the
   * handshake frame carries: the length of the finished frame plus one.
   * Every other part is built exactly as in the source.
   */
  function MakePcLinkCommand(func: nat, addr: string, args: seq<Byte>): string
    requires IsAddress(addr)
  {
    var withCrc1 := AppendCrc1(CommandBody(func, addr, args));
    AppendCrc2("$" + IntToHex(|withCrc1| + 6, 2) + withCrc1)
  }

  // ---------------------------------------------------------------------------
  // Facts about strings of hexadecimal digits, used to take frames apart
  // ---------------------------------------------------------------------------

  lemma UpperHexConcat(a: string, b: string)
    requires IsUpperHexString(a) && IsUpperHexString(b)
    ensures IsUpperHexString(a + b)
  {
    assert forall k :: 0 <= k < |a + b| ==> (a + b)[k] == if k < |a| then a[k] else b[k - |a|];
  }

  /** Pairing up digits commutes with concatenation at an even boundary. */
  lemma HexPairsConcat(p: string, q: string)
    requires IsHexString(p) && IsHexString(q) && |p| % 2 == 0
    ensures IsHexString(p + q) && HexPairs(p + q) == HexPairs(p) + HexPairs(q)
  {
    var r := p + q;
    assert forall k :: 0 <= k < |r| ==> r[k] == if k < |p| then p[k] else q[k - |p|];
    var n := |p| / 2;
    forall j | 0 <= j < |r| / 2
      ensures PairValue(r, j) == (HexPairs(p) + HexPairs(q))[j]
    {
      if j < n {
        assert r[2 * j..2 * j + 2] == p[2 * j..2 * j + 2];
      } else {
        assert r[2 * j..2 * j + 2] == q[2 * (j - n)..2 * (j - n) + 2];
      }
    }
  }

  lemma HexPairsOfHex2(b: Byte)
    ensures HexPairs(Hex2(b)) == [b]
  {
    var s := Hex2(b);
    assert s[0..2] == s;
  }

  /** The digits of the arguments read back as the arguments. */
  lemma {:induction false} ArgsHexPairs(args: seq<Byte>)
    ensures HexPairs(ArgsHex(args)) == args
  {
    if |args| > 0 {
      ArgsHexPairs(args[1..]);
      HexPairsOfHex2(args[0]);
      HexPairsConcat(Hex2(args[0]), ArgsHex(args[1..]));
    }
  }

  /** The CRC-16 covers exactly the bytes of the command: code, address, arguments. */
  lemma BodyPairs(func: nat, addr: string, args: seq<Byte>)
    requires IsAddress(addr) && func < 256
    ensures HexPairs(CommandBody(func, addr, args)) == [func as Byte, AddressLow(addr), AddressHigh(addr)] + args
  {
    BodyShape(func, addr, args);
    var head := Hex2(func) + Hex2(AddressLow(addr)) + Hex2(AddressHigh(addr));
    ThreeBytePairs(func, AddressLow(addr), AddressHigh(addr));
    ArgsHexPairs(args);
    HexPairsConcat(head, ArgsHex(args));
  }

  /** Three bytes written as six digits read back as the three bytes. */
  lemma ThreeBytePairs(x: Byte, y: Byte, z: Byte)
    ensures var s := Hex2(x) + Hex2(y) + Hex2(z);
      |s| == 6 && IsUpperHexString(s) && HexPairs(s) == [x, y, z]
  {
    var f, lo, hi := Hex2(x), Hex2(y), Hex2(z);
    HexPairsOfHex2(x);
    HexPairsOfHex2(y);
    HexPairsOfHex2(z);
    HexPairsConcat(f, lo);
    UpperHexConcat(f, lo);
    HexPairsConcat(f + lo, hi);
    UpperHexConcat(f + lo, hi);
  }

  /** Where each part of "$" + ll + body + c1 + c2 lands. */
  lemma FrameFields(ll: string, body: string, c1: string, c2: string)
    requires |ll| == 2 && |c1| == 4 && |c2| == 2
    ensures var r := "$" + ll + body + c1 + c2;
      && |r| == |body| + 9 && r[0] == '$' && r[1..3] == ll && r[3..|r| - 6] == body
      && r[|r| - 6..|r| - 2] == c1 && r[|r| - 2..] == c2 && r[..|r| - 2] == "$" + ll + body + c1
      && r[1..] == ll + body + c1 + c2
  {
    var r := "$" + ll + body + c1 + c2;
    assert forall k :: 3 <= k < 3 + |body| ==> r[k] == body[k - 3];
    assert forall k :: 3 + |body| <= k < 7 + |body| ==> r[k] == c1[k - 3 - |body|];
    assert forall k :: 7 + |body| <= k < |r| ==> r[k] == c2[k - 7 - |body|];
    assert r[1..3] == ll;
    assert r[3..|r| - 6] == body;
    assert r[|r| - 6..|r| - 2] == c1;
    assert r[|r| - 2..] == c2;
  }

  /** Between the length field and the CRC-8 lie the body and the CRC-16. */
  lemma FrameMiddle(ll: string, body: string, c1: string, c2: string)
    requires |ll| == 2 && |c1| == 4 && |c2| == 2
    ensures var r := "$" + ll + body + c1 + c2;
      |r| == |body| + 9 && r[1..3] == ll && r[3..|r| - 2] == body + c1
  {
    var r := "$" + ll + body + c1 + c2;
    assert forall k :: 3 <= k < 3 + |body| ==> r[k] == body[k - 3];
    assert forall k :: 3 + |body| <= k < 7 + |body| ==> r[k] == c1[k - 3 - |body|];
    assert r[1..3] == ll;
    assert r[3..|r| - 2] == body + c1;
  }

  /** Where each part of the command body lands. */
  lemma BodyFields(f: string, lo: string, hi: string, a: string)
    requires |f| == 2 && |lo| == 2 && |hi| == 2
    ensures var b := f + lo + hi + a;
      |b| == 6 + |a| && b[0..2] == f && b[2..4] == lo && b[4..6] == hi && b[6..|b|] == a
  {
    var b := f + lo + hi + a;
    assert forall k :: 6 <= k < |b| ==> b[k] == a[k - 6];
    assert b[0..2] == f;
    assert b[2..4] == lo;
    assert b[4..6] == hi;
    assert b[6..|b|] == a;
  }

  /** With a one-byte function code the body is six digits of code and address, then the arguments. */
  lemma BodyShape(func: nat, addr: string, args: seq<Byte>)
    requires IsAddress(addr) && func < 256
    ensures CommandBody(func, addr, args) == Hex2(func) + Hex2(AddressLow(addr)) + Hex2(AddressHigh(addr)) + ArgsHex(args)
    ensures |CommandBody(func, addr, args)| == 6 + 2 * |args|
  {
    IntToHexFits(func, 2);
  }

  lemma AppendCrc1Shape(data: string)
    requires IsHexString(data)
    ensures |IntToHex(Crc16(data) as int, 4)| == 4
    ensures AppendCrc1(data) == data + IntToHex(Crc16(data) as int, 4)
  {
    IntToHexFits(Crc16(data) as int, 4);
  }

  lemma AppendCrc2Shape(data: string)
    ensures |IntToHex(Crc8(data) as int, 2)| == 2
    ensures AppendCrc2(data) == data + IntToHex(Crc8(data) as int, 2)
  {
    IntToHexFits(Crc8(data) as int, 2);
  }

  /** The frame around a body: sigil, a length field, the body, its CRC-16, then the CRC-8 of all that. */
  lemma FrameOfBody(body: string, ll: nat)
    requires IsHexString(body)
    ensures var withCrc1 := AppendCrc1(body);
            var c1 := IntToHex(Crc16(body) as int, 4);
            var head := "$" + IntToHex(ll, 2) + body + c1;
            && withCrc1 == body + c1 && |c1| == 4
            && AppendCrc2("$" + IntToHex(ll, 2) + withCrc1) == head + IntToHex(Crc8(head) as int, 2)
            && |IntToHex(Crc8(head) as int, 2)| == 2
  {
    AppendCrc1Shape(body);
    var c1 := IntToHex(Crc16(body) as int, 4);
    var head := "$" + IntToHex(ll, 2) + body + c1;
    assert "$" + IntToHex(ll, 2) + (body + c1) == head;
    AppendCrc2Shape(head);
  }

  /** The corrected frame is its head (sigil, length, body, CRC-16) followed by the CRC-8 of that head. */
  lemma CommandFrame(func: nat, addr: string, args: seq<Byte>)
    requires IsAddress(addr) && func < 256 && |args| <= 119
    ensures var body := CommandBody(func, addr, args);
            var c1 := IntToHex(Crc16(body) as int, 4);
            var head := "$" + Hex2(2 * |args| + 16) + body + c1;
            && |body| == 6 + 2 * |args| && |c1| == 4
            && MakePcLinkCommand(func, addr, args) == head + IntToHex(Crc8(head) as int, 2)
            && |IntToHex(Crc8(head) as int, 2)| == 2
  {
    var body := CommandBody(func, addr, args);
    BodyShape(func, addr, args);
    FrameOfBody(body, 2 * |args| + 16);
    assert |AppendCrc1(body)| + 6 == 2 * |args| + 16;
  }

  /** make_pc_link_command as written builds the same head with the shorter length field. */
  lemma CommandFrameAsWritten(func: nat, addr: string, args: seq<Byte>)
    requires IsAddress(addr) && func < 256 && |args| <= 119
    ensures var body := CommandBody(func, addr, args);
            var c1 := IntToHex(Crc16(body) as int, 4);
            var head := "$" + Hex2(|args| + 6) + body + c1;
            && |body| == 6 + 2 * |args| && |c1| == 4
            && MakePcLinkCommandAsWritten(func, addr, args) == head + IntToHex(Crc8(head) as int, 2)
            && |IntToHex(Crc8(head) as int, 2)| == 2
  {
    var body := CommandBody(func, addr, args);
    BodyShape(func, addr, args);
    FrameOfBody(body, |args| + 6);
    assert |AppendCrc1(body)| / 2 + 1 == |args| + 6;
  }

  /**
   * The layout of the corrected frame: "$", a length field holding the
   * frame's own length plus one, the body, the CRC-16 of the body and the
   * CRC-8 of everything before it. Its length is 15 + 2 * |args|.
   */
  lemma CommandLayout(func: nat, addr: string, args: seq<Byte>)
    requires IsAddress(addr) && func < 256 && |args| <= 119
    ensures var r := MakePcLinkCommand(func, addr, args);
            && |r| == 15 + 2 * |args|
            && r[0] == '$'
            && r[1..3] == Hex2(|r| + 1)
            && r[3..|r| - 6] == CommandBody(func, addr, args)
            && r[|r| - 6..|r| - 2] == IntToHex(Crc16(CommandBody(func, addr, args)) as int, 4)
            && r[|r| - 2..] == IntToHex(Crc8(r[..|r| - 2]) as int, 2)
  {
    CommandFrame(func, addr, args);
    var r := MakePcLinkCommand(func, addr, args);
    var body := CommandBody(func, addr, args);
    var ll := Hex2(2 * |args| + 16);
    var c1 := IntToHex(Crc16(body) as int, 4);
    var head := "$" + ll + body + c1;
    var c2 := IntToHex(Crc8(head) as int, 2);
    FrameLayout(r, ll, body, c1, c2);
  }

  /**
   * The layout of the frame make_pc_link_command as written sends: the same
   * sigil, body and CRC-16 fields, but a length field holding the number of
   * bytes after it, |args| + 6, and the CRC-8 of that head.
   */
  lemma CommandLayoutAsWritten(func: nat, addr: string, args: seq<Byte>)
    requires IsAddress(addr) && func < 256 && |args| <= 119
    ensures var r := MakePcLinkCommandAsWritten(func, addr, args);
            && |r| == 15 + 2 * |args|
            && r[0] == '$'
            && r[1..3] == Hex2(|args| + 6)
            && r[3..|r| - 6] == CommandBody(func, addr, args)
            && r[|r| - 6..|r| - 2] == IntToHex(Crc16(CommandBody(func, addr, args)) as int, 4)
            && r[|r| - 2..] == IntToHex(Crc8(r[..|r| - 2]) as int, 2)
  {
    CommandFrameAsWritten(func, addr, args);
    var r := MakePcLinkCommandAsWritten(func, addr, args);
    var body := CommandBody(func, addr, args);
    var ll := Hex2(|args| + 6);
    var c1 := IntToHex(Crc16(body) as int, 4);
    var head := "$" + ll + body + c1;
    var c2 := IntToHex(Crc8(head) as int, 2);
    FrameLayout(r, ll, body, c1, c2);
  }

  /** FrameFields for a frame given by name. */
  lemma FrameLayout(r: string, ll: string, body: string, c1: string, c2: string)
    requires |ll| == 2 && |c1| == 4 && |c2| == 2 && r == "$" + ll + body + c1 + c2
    ensures |r| == |body| + 9 && r[0] == '$' && r[1..3] == ll && r[3..|r| - 6] == body
    ensures r[|r| - 6..|r| - 2] == c1 && r[|r| - 2..] == c2 && r[..|r| - 2] == "$" + ll + body + c1
  {
    FrameFields(ll, body, c1, c2);
  }

  /** `r` has the length of a frame for `args`, and its body, field by field, is code, address low byte, high byte, arguments. */
  predicate BodyFieldsAt(r: string, func: nat, addr: string, args: seq<Byte>)
    requires IsAddress(addr) && func < 256
  {
    && |r| == 15 + 2 * |args|
    && r[3..5] == Hex2(func)
    && r[5..7] == Hex2(AddressLow(addr)) && r[7..9] == Hex2(AddressHigh(addr))
    && r[9..|r| - 6] == ArgsHex(args)
  }

  /** The body of either builder's frame, field by field. */
  lemma CommandFields(func: nat, addr: string, args: seq<Byte>)
    requires IsAddress(addr) && func < 256 && |args| <= 119
    ensures BodyFieldsAt(MakePcLinkCommandAsWritten(func, addr, args), func, addr, args)
    ensures BodyFieldsAt(MakePcLinkCommand(func, addr, args), func, addr, args)
  {
    CommandLayoutAsWritten(func, addr, args);
    CommandLayout(func, addr, args);
    BodyShape(func, addr, args);
    FieldsOf(MakePcLinkCommandAsWritten(func, addr, args), Hex2(func), Hex2(AddressLow(addr)), Hex2(AddressHigh(addr)), ArgsHex(args));
    FieldsOf(MakePcLinkCommand(func, addr, args), Hex2(func), Hex2(AddressLow(addr)), Hex2(AddressHigh(addr)), ArgsHex(args));
  }

  /** Where the four parts of a frame's body lie in the frame. */
  lemma FieldsOf(r: string, f: string, lo: string, hi: string, a: string)
    requires |f| == 2 && |lo| == 2 && |hi| == 2 && |r| == |a| + 15
    requires r[3..|r| - 6] == f + lo + hi + a
    ensures r[3..5] == f && r[5..7] == lo && r[7..9] == hi && r[9..|r| - 6] == a
  {
    var body := r[3..|r| - 6];
    BodyFields(f, lo, hi, a);
    SubSlice(r, 3, |r| - 6, 0, 2);
    SubSlice(r, 3, |r| - 6, 2, 4);
    SubSlice(r, 3, |r| - 6, 4, 6);
    SubSlice(r, 3, |r| - 6, 6, |body|);
  }

  lemma SubSlice(r: string, i: nat, j: nat, a: nat, b: nat)
    requires i <= j <= |r| && a <= b <= j - i
    ensures r[i..j][a..b] == r[i + a..i + b]
  {
    assert forall k :: 0 <= k < b - a ==> r[i..j][a..b][k] == r[i + a..i + b][k];
  }

  /** Everything after the "$" of a corrected frame is upper-case hexadecimal. */
  lemma CommandIsUpperHex(func: nat, addr: string, args: seq<Byte>)
    requires IsAddress(addr) && func < 256 && |args| <= 119
    ensures var r := MakePcLinkCommand(func, addr, args);
            |r| >= 1 && IsUpperHexString(r[1..])
  {
    CommandFrame(func, addr, args);
    var body := CommandBody(func, addr, args);
    var ll := Hex2(2 * |args| + 16);
    var c1 := IntToHex(Crc16(body) as int, 4);
    var head := "$" + ll + body + c1;
    var c2 := IntToHex(Crc8(head) as int, 2);
    FrameFields(ll, body, c1, c2);
    UpperHexConcat(ll, body);
    UpperHexConcat(ll + body, c1);
    UpperHexConcat(ll + body + c1, c2);
  }

  /** The same holds of the frames the builder as written makes. */
  lemma CommandAsWrittenIsUpperHex(func: nat, addr: string, args: seq<Byte>)
    requires IsAddress(addr) && func < 256 && |args| <= 119
    ensures var r := MakePcLinkCommandAsWritten(func, addr, args);
            |r| >= 1 && IsUpperHexString(r[1..])
  {
    CommandFrameAsWritten(func, addr, args);
    var body := CommandBody(func, addr, args);
    var ll := Hex2(|args| + 6);
    var c1 := IntToHex(Crc16(body) as int, 4);
    var head := "$" + ll + body + c1;
    var c2 := IntToHex(Crc8(head) as int, 2);
    FrameFields(ll, body, c1, c2);
    UpperHexConcat(ll, body);
    UpperHexConcat(ll + body, c1);
    UpperHexConcat(ll + body + c1, c2);
  }

  /**
   * Read field by field, `r` is a frame carrying `bytes` under the length
   * field `length`: the body's digit pairs, the CRC-16 of the body and the
   * CRC-8 of everything before the last two digits.
   */
  predicate FrameDecodes(r: string, length: nat, bytes: seq<Byte>) {
    && |r| >= 9
    && IsHexString(r[1..3]) && ParseHex(r[1..3]) == length
    && IsHexString(r[3..|r| - 6]) && HexPairs(r[3..|r| - 6]) == bytes
    && IsHexString(r[|r| - 6..|r| - 2]) && ParseHex(r[|r| - 6..|r| - 2]) == Crc16(r[3..|r| - 6]) as int
    && IsHexString(r[|r| - 2..]) && ParseHex(r[|r| - 2..]) == Crc8(r[..|r| - 2]) as int
  }

  /**
   * Decoded, the frame make_pc_link_command sends carries the byte count
   * after its length field, the command's bytes and both CRCs; the
   * corrected frame carries the same with its own length plus one.
   */
  lemma CommandDecodes(func: nat, addr: string, args: seq<Byte>)
    requires IsAddress(addr) && func < 256 && |args| <= 119
    ensures |MakePcLinkCommandAsWritten(func, addr, args)| == |MakePcLinkCommand(func, addr, args)| == 15 + 2 * |args|
    ensures FrameDecodes(MakePcLinkCommandAsWritten(func, addr, args), |args| + 6, [func as Byte, AddressLow(addr), AddressHigh(addr)] + args)
    ensures FrameDecodes(MakePcLinkCommand(func, addr, args), 2 * |args| + 16, [func as Byte, AddressLow(addr), AddressHigh(addr)] + args)
  {
    CommandLayoutAsWritten(func, addr, args);
    CommandLayout(func, addr, args);
    BodyPairs(func, addr, args);
    LaidOutDecodes(MakePcLinkCommandAsWritten(func, addr, args), |args| + 6, CommandBody(func, addr, args));
    LaidOutDecodes(MakePcLinkCommand(func, addr, args), 2 * |args| + 16, CommandBody(func, addr, args));
  }

  /** A frame laid out around `body` decodes to the body's bytes. */
  lemma LaidOutDecodes(r: string, length: nat, body: string)
    requires |r| >= 9 && length < 0x100 && IsHexString(body)
    requires r[1..3] == Hex2(length) && r[3..|r| - 6] == body
    requires r[|r| - 6..|r| - 2] == IntToHex(Crc16(body) as int, 4)
    requires r[|r| - 2..] == IntToHex(Crc8(r[..|r| - 2]) as int, 2)
    ensures FrameDecodes(r, length, HexPairs(body))
  {
    NumberFieldsDecode(r, length, Crc16(body) as int, Crc8(r[..|r| - 2]) as int);
  }

  /** The length field and both CRC fields of a frame read back as the numbers written into them. */
  lemma NumberFieldsDecode(r: string, length: nat, crc16: nat, crc8: nat)
    requires |r| >= 9 && length < 0x100 && crc16 < 0x1_0000 && crc8 < 0x100
    requires r[1..3] == Hex2(length)
    requires r[|r| - 6..|r| - 2] == IntToHex(crc16, 4)
    requires r[|r| - 2..] == IntToHex(crc8, 2)
    ensures IsHexString(r[1..3]) && ParseHex(r[1..3]) == length
    ensures IsHexString(r[|r| - 6..|r| - 2]) && ParseHex(r[|r| - 6..|r| - 2]) == crc16
    ensures IsHexString(r[|r| - 2..]) && ParseHex(r[|r| - 2..]) == crc8
  {
    IntToHexFits(crc16, 4);
    IntToHexFits(crc8, 2);
  }

  /** The two builders differ only in the length field and, through it, the CRC-8. */
  lemma BuildersShareBody(func: nat, addr: string, args: seq<Byte>)
    requires IsAddress(addr) && func < 256 && |args| <= 119
    ensures var w := MakePcLinkCommandAsWritten(func, addr, args);
            var c := MakePcLinkCommand(func, addr, args);
            && |w| == |c| && w[0] == c[0] == '$' && w[3..|w| - 2] == c[3..|c| - 2]
            && w[1..3] == Hex2(|args| + 6) && c[1..3] == Hex2(2 * |args| + 16)
  {
    CommandFrame(func, addr, args);
    CommandFrameAsWritten(func, addr, args);
    var body := CommandBody(func, addr, args);
    var c1 := IntToHex(Crc16(body) as int, 4);
    var lw, lc := Hex2(|args| + 6), Hex2(2 * |args| + 16);
    var hw, hc := "$" + lw + body + c1, "$" + lc + body + c1;
    FrameMiddle(lw, body, c1, IntToHex(Crc8(hw) as int, 2));
    FrameMiddle(lc, body, c1, IntToHex(Crc8(hc) as int, 2));
  }

  /** No command is built the same by both: their length fields always differ. */
  lemma BuildersNeverAgree(func: nat, addr: string, args: seq<Byte>)
    requires IsAddress(addr) && func < 256 && |args| <= 119
    ensures MakePcLinkCommandAsWritten(func, addr, args) != MakePcLinkCommand(func, addr, args)
  {
    BuildersShareBody(func, addr, args);
    var w := MakePcLinkCommandAsWritten(func, addr, args);
    var c := MakePcLinkCommand(func, addr, args);
    assert ParseHex(w[1..3]) != ParseHex(c[1..3]);
  }

  /** A four-digit address is sent with its two bytes swapped: "1A2B" goes out as "2B1A". */
  lemma AddressIsLittleEndian(func: nat, addr: string, args: seq<Byte>)
    requires |addr| == 4 && IsUpperHexString(addr) && func < 256 && |args| <= 119
    ensures IsAddress(addr)
    ensures MakePcLinkCommandAsWritten(func, addr, args)[5..9] == addr[2..] + addr[..2]
    ensures MakePcLinkCommand(func, addr, args)[5..9] == addr[2..] + addr[..2]
  {
    var hi, lo := addr[..2], addr[2..];
    assert addr == hi + lo;
    ParseHexConcatTwo(hi, lo);
    CommandFields(func, addr, args);
    IntToHexOfTwoDigits(hi);
    IntToHexOfTwoDigits(lo);
    assert Hex2(AddressLow(addr)) == lo && Hex2(AddressHigh(addr)) == hi;
    SliceSplit(MakePcLinkCommandAsWritten(func, addr, args), 5, 7, 9);
    SliceSplit(MakePcLinkCommand(func, addr, args), 5, 7, 9);
  }

  lemma SliceSplit(r: string, i: nat, m: nat, j: nat)
    requires i <= m <= j <= |r|
    ensures r[i..j] == r[i..m] + r[m..j]
  {
  }

  lemma ParseHexConcatTwo(hi: string, lo: string)
    requires |hi| == 2 && |lo| == 2 && IsHexString(hi) && IsHexString(lo)
    ensures IsHexString(hi + lo)
    ensures ParseHex(hi + lo) % 256 == ParseHex(lo) && (ParseHex(hi + lo) / 256) % 256 == ParseHex(hi)
  {
    var s := hi + lo;
    assert s[..3] == hi + [lo[0]] && s[..3][..2] == hi && lo[..1] == [lo[0]];
    assert ParseHex(s[..3]) == ParseHex(hi) * 16 + HexValue(lo[0]);
    assert ParseHex(lo) == HexValue(lo[0]) * 16 + HexValue(lo[1]);
    assert ParseHex(s) == ParseHex(hi) * 256 + ParseHex(lo);
    ByteSplit(ParseHex(hi), ParseHex(lo));
  }

  lemma ByteSplit(h: nat, l: nat)
    requires h < 256 && l < 256
    ensures (h * 256 + l) % 256 == l && ((h * 256 + l) / 256) % 256 == h
  {
  }

  lemma AddressExample()
    ensures MakePcLinkCommandAsWritten(0x12, "1A2B", [])[5..9] == "2B1A"
  {
    AddressIsLittleEndian(0x12, "1A2B", []);
  }

  // ---------------------------------------------------------------------------
  // calculate_group_number
  // ---------------------------------------------------------------------------

  /** `((channel - 1) // 6) + 1` with Python's floor division. */
  function CalculateGroupNumber(channel: int): (g: int)
    ensures 6 * (g - 1) + 1 <= channel <= 6 * g
  {
    (channel - 1) / 6 + 1
  }

  /** The group is the unique g whose six channels 6g-5..6g contain the channel. */
  lemma GroupUnique(channel: int, g: int)
    requires 6 * (g - 1) + 1 <= channel <= 6 * g
    ensures CalculateGroupNumber(channel) == g
  {
    var r := CalculateGroupNumber(channel);
    assert 6 * (r - 1) + 1 <= channel <= 6 * r;
  }

  lemma GroupMonotone(c: int, d: int)
    requires c <= d
    ensures CalculateGroupNumber(c) <= CalculateGroupNumber(d)
  {
  }

  lemma GroupExamples()
    ensures forall c :: 1 <= c <= 6 ==> CalculateGroupNumber(c) == 1
    ensures forall c :: 7 <= c <= 12 ==> CalculateGroupNumber(c) == 2
    ensures CalculateGroupNumber(0) == 0
  {
    forall c | 1 <= c <= 6 ensures CalculateGroupNumber(c) == 1 { GroupUnique(c, 1); }
    forall c | 7 <= c <= 12 ensures CalculateGroupNumber(c) == 2 { GroupUnique(c, 2); }
    GroupUnique(0, 0);
  }
}
