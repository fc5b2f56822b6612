/** The frame check sequence of HDLC framing: a table-driven CRC-16 (sstp-fcs.c), proved equal to the
    bit-by-bit reflected CRC with polynomial 0x8408 of RFC 1662, appendix C, and then studied through
    that definition. */
module Fcs {
  import opened Bytes

  const PPPINITFCS16: bv16 := 0xffff
  const PPPGOODFCS16: bv16 := 0xf0b8

  // The 256 entries of the table, in the order of the source, sixteen to a row.
  function FcsTab(row: nat): (entries: seq<bv16>)
    requires row < 16
    ensures |entries| == 16
  {
    match row
    case 0 => [0x0000, 0x1189, 0x2312, 0x329b, 0x4624, 0x57ad, 0x6536, 0x74bf,
              0x8c48, 0x9dc1, 0xaf5a, 0xbed3, 0xca6c, 0xdbe5, 0xe97e, 0xf8f7]
    case 1 => [0x1081, 0x0108, 0x3393, 0x221a, 0x56a5, 0x472c, 0x75b7, 0x643e,
              0x9cc9, 0x8d40, 0xbfdb, 0xae52, 0xdaed, 0xcb64, 0xf9ff, 0xe876]
    case 2 => [0x2102, 0x308b, 0x0210, 0x1399, 0x6726, 0x76af, 0x4434, 0x55bd,
              0xad4a, 0xbcc3, 0x8e58, 0x9fd1, 0xeb6e, 0xfae7, 0xc87c, 0xd9f5]
    case 3 => [0x3183, 0x200a, 0x1291, 0x0318, 0x77a7, 0x662e, 0x54b5, 0x453c,
              0xbdcb, 0xac42, 0x9ed9, 0x8f50, 0xfbef, 0xea66, 0xd8fd, 0xc974]
    case 4 => [0x4204, 0x538d, 0x6116, 0x709f, 0x0420, 0x15a9, 0x2732, 0x36bb,
              0xce4c, 0xdfc5, 0xed5e, 0xfcd7, 0x8868, 0x99e1, 0xab7a, 0xbaf3]
    case 5 => [0x5285, 0x430c, 0x7197, 0x601e, 0x14a1, 0x0528, 0x37b3, 0x263a,
              0xdecd, 0xcf44, 0xfddf, 0xec56, 0x98e9, 0x8960, 0xbbfb, 0xaa72]
    case 6 => [0x6306, 0x728f, 0x4014, 0x519d, 0x2522, 0x34ab, 0x0630, 0x17b9,
              0xef4e, 0xfec7, 0xcc5c, 0xddd5, 0xa96a, 0xb8e3, 0x8a78, 0x9bf1]
    case 7 => [0x7387, 0x620e, 0x5095, 0x411c, 0x35a3, 0x242a, 0x16b1, 0x0738,
              0xffcf, 0xee46, 0xdcdd, 0xcd54, 0xb9eb, 0xa862, 0x9af9, 0x8b70]
    case 8 => [0x8408, 0x9581, 0xa71a, 0xb693, 0xc22c, 0xd3a5, 0xe13e, 0xf0b7,
              0x0840, 0x19c9, 0x2b52, 0x3adb, 0x4e64, 0x5fed, 0x6d76, 0x7cff]
    case 9 => [0x9489, 0x8500, 0xb79b, 0xa612, 0xd2ad, 0xc324, 0xf1bf, 0xe036,
              0x18c1, 0x0948, 0x3bd3, 0x2a5a, 0x5ee5, 0x4f6c, 0x7df7, 0x6c7e]
    case 10 => [0xa50a, 0xb483, 0x8618, 0x9791, 0xe32e, 0xf2a7, 0xc03c, 0xd1b5,
              0x2942, 0x38cb, 0x0a50, 0x1bd9, 0x6f66, 0x7eef, 0x4c74, 0x5dfd]
    case 11 => [0xb58b, 0xa402, 0x9699, 0x8710, 0xf3af, 0xe226, 0xd0bd, 0xc134,
              0x39c3, 0x284a, 0x1ad1, 0x0b58, 0x7fe7, 0x6e6e, 0x5cf5, 0x4d7c]
    case 12 => [0xc60c, 0xd785, 0xe51e, 0xf497, 0x8028, 0x91a1, 0xa33a, 0xb2b3,
              0x4a44, 0x5bcd, 0x6956, 0x78df, 0x0c60, 0x1de9, 0x2f72, 0x3efb]
    case 13 => [0xd68d, 0xc704, 0xf59f, 0xe416, 0x90a9, 0x8120, 0xb3bb, 0xa232,
              0x5ac5, 0x4b4c, 0x79d7, 0x685e, 0x1ce1, 0x0d68, 0x3ff3, 0x2e7a]
    case 14 => [0xe70e, 0xf687, 0xc41c, 0xd595, 0xa12a, 0xb0a3, 0x8238, 0x93b1,
              0x6b46, 0x7acf, 0x4854, 0x59dd, 0x2d62, 0x3ceb, 0x0e70, 0x1ff9]
    case _ => [0xf78f, 0xe606, 0xd49d, 0xc514, 0xb1ab, 0xa022, 0x92b9, 0x8330,
              0x7bc7, 0x6a4e, 0x58d5, 0x495c, 0x3de3, 0x2c6a, 0x1ef1, 0x0f78]
  }

  function Xor16(x: bv16, y: bv16): bv16 {
    x ^ y
  }

  function Low(x: bv16): bv16 {
    x & 0xff
  }

  function High(x: bv16): bv16 {
    x & 0xff00
  }

  function ShiftDown(x: bv16): bv16 {
    x >> 8
  }

  function Complement(x: bv16): bv16 {
    x ^ PPPINITFCS16
  }

  function Wide(c: byte): bv16 {
    ByteBits(c) as bv16
  }

  function LowByte(x: bv16): byte {
    ByteValue((x & 0xff) as bv8)
  }

  function HighByte(x: bv16): byte {
    ByteValue((x >> 8) as bv8)
  }

  function TableEntry(i: byte): bv16 {
    FcsTab(i / 16)[i % 16]
  }

  // ----- the definition: one bit at a time -----

  function Feedback(x: bv16): bv16 {
    if x & 1 == 1 then 0x8408 else 0
  }

  function CrcBit(x: bv16): bv16 {
    Xor16(x >> 1, Feedback(x))
  }

  function CrcBits(n: nat, x: bv16): bv16
    decreases n
  {
    if n == 0 then x else CrcBit(CrcBits(n - 1, x))
  }

  function CrcStep(fcs: bv16, c: byte): bv16 {
    CrcBits(8, Xor16(fcs, Wide(c)))
  }

  function Crc(fcs: bv16, s: seq<byte>): bv16
    decreases s
  {
    if s == [] then fcs else Crc(CrcStep(fcs, s[0]), s[1..])
  }

  // ----- CrcBits is linear over exclusive-or, and injective -----

  lemma XorAssociative(a: bv16, b: bv16, c: bv16)
    ensures Xor16(Xor16(a, b), c) == Xor16(a, Xor16(b, c))
  {
    assert (a ^ b) ^ c == a ^ (b ^ c);
  }

  lemma XorCommutative(a: bv16, b: bv16)
    ensures Xor16(a, b) == Xor16(b, a)
  {
  }

  lemma XorCancel(a: bv16, b: bv16, c: bv16)
    requires Xor16(a, b) == Xor16(a, c)
    ensures b == c
  {
  }

  lemma XorRegroup(a: bv16, b: bv16, c: bv16, d: bv16)
    ensures Xor16(Xor16(a, b), Xor16(c, d)) == Xor16(Xor16(a, c), Xor16(b, d))
  {
    hide Xor16;
    XorAssociative(Xor16(a, b), c, d);
    XorAssociative(a, b, c);
    XorCommutative(b, c);
    XorAssociative(a, c, b);
    XorAssociative(Xor16(a, c), b, d);
  }

  lemma XorShift(x: bv16, y: bv16)
    ensures Xor16(x, y) >> 1 == Xor16(x >> 1, y >> 1)
    ensures Feedback(Xor16(x, y)) == Xor16(Feedback(x), Feedback(y))
  {
    if x & 1 == 1 {
      if y & 1 == 1 {
        assert Xor16(x, y) & 1 == 0;
      } else {
        assert y & 1 == 0;
        assert Xor16(x, y) & 1 == 1;
      }
    } else {
      assert x & 1 == 0;
      if y & 1 == 1 {
        assert Xor16(x, y) & 1 == 1;
      } else {
        assert y & 1 == 0;
        assert Xor16(x, y) & 1 == 0;
      }
    }
  }

  lemma CrcBitLinear(x: bv16, y: bv16)
    ensures CrcBit(Xor16(x, y)) == Xor16(CrcBit(x), CrcBit(y))
  {
    hide Xor16, Feedback;
    XorShift(x, y);
    XorRegroup(x >> 1, y >> 1, Feedback(x), Feedback(y));
  }

  lemma CrcBitInjective(x: bv16, y: bv16)
    requires CrcBit(x) == CrcBit(y)
    ensures x == y
  {
  }

  lemma CrcBitsUnfold(n: nat, x: bv16)
    ensures CrcBits(0, x) == x
    ensures CrcBits(n + 1, x) == CrcBit(CrcBits(n, x))
  {
  }

  lemma {:induction false} CrcBitsLinear(n: nat, x: bv16, y: bv16)
    ensures CrcBits(n, Xor16(x, y)) == Xor16(CrcBits(n, x), CrcBits(n, y))
    decreases n
  {
    hide CrcBits, CrcBit, Xor16;
    if n == 0 {
      CrcBitsUnfold(0, x);
      CrcBitsUnfold(0, y);
      CrcBitsUnfold(0, Xor16(x, y));
    } else {
      CrcBitsLinear(n - 1, x, y);
      CrcBitsUnfold(n - 1, x);
      CrcBitsUnfold(n - 1, y);
      CrcBitsUnfold(n - 1, Xor16(x, y));
      CrcBitLinear(CrcBits(n - 1, x), CrcBits(n - 1, y));
    }
  }

  lemma {:induction false} CrcBitsInjective(n: nat, x: bv16, y: bv16)
    requires CrcBits(n, x) == CrcBits(n, y)
    ensures x == y
    decreases n
  {
    hide CrcBit;
    if n == 0 {
    } else {
      CrcBitInjective(CrcBits(n - 1, x), CrcBits(n - 1, y));
      CrcBitsInjective(n - 1, x, y);
    }
  }

  // As long as only zeros leave at the low end, the register just shifts.
  lemma CrcBitsEven(n: nat, x: bv16, y: bv16)
    requires CrcBits(n, x) == y && y & 1 == 0
    ensures CrcBits(n + 1, x) == y >> 1
  {
  }

  lemma HighBitsStayClear(x: bv16)
    requires x & 0xff == 0
    ensures x & 1 == 0 && (x >> 1) & 1 == 0 && (x >> 2) & 1 == 0 && (x >> 3) & 1 == 0
    ensures (x >> 4) & 1 == 0 && (x >> 5) & 1 == 0 && (x >> 6) & 1 == 0 && (x >> 7) & 1 == 0
    ensures (x >> 1) >> 1 == x >> 2 && (x >> 2) >> 1 == x >> 3 && (x >> 3) >> 1 == x >> 4
    ensures (x >> 4) >> 1 == x >> 5 && (x >> 5) >> 1 == x >> 6 && (x >> 6) >> 1 == x >> 7 && (x >> 7) >> 1 == x >> 8
  {
  }

  // Eight steps move a high byte down untouched.
  lemma CrcBitsHigh(x: bv16)
    requires Low(x) == 0
    ensures CrcBits(8, x) == ShiftDown(x)
  {
    hide CrcBits;
    HighBitsStayClear(x);
    CrcBitsUnfold(0, x);
    CrcBitsEven(0, x, x);
    CrcBitsEven(1, x, x >> 1);
    CrcBitsEven(2, x, x >> 2);
    CrcBitsEven(3, x, x >> 3);
    CrcBitsEven(4, x, x >> 4);
    CrcBitsEven(5, x, x >> 5);
    CrcBitsEven(6, x, x >> 6);
    CrcBitsEven(7, x, x >> 7);
  }

  // ----- the table holds exactly the eight-bit steps of its indices -----

  // Every row repeats row 0, shifted by exclusive-or with its own first entry.
  function RowFrom(base: bv16): (row: seq<bv16>)
    ensures |row| == 16
  {
    [base, Xor16(base, 0x1189), Xor16(base, 0x2312), Xor16(base, 0x329b),
     Xor16(base, 0x4624), Xor16(base, 0x57ad), Xor16(base, 0x6536), Xor16(base, 0x74bf),
     Xor16(base, 0x8c48), Xor16(base, 0x9dc1), Xor16(base, 0xaf5a), Xor16(base, 0xbed3),
     Xor16(base, 0xca6c), Xor16(base, 0xdbe5), Xor16(base, 0xe97e), Xor16(base, 0xf8f7)]
  }

  lemma CrcOfLow0To3()
    ensures CrcBits(8, 0) == 0x0000
    ensures CrcBits(8, 1) == 0x1189
    ensures CrcBits(8, 2) == 0x2312
    ensures CrcBits(8, 3) == 0x329b
  {
  }

  lemma CrcOfLow4To7()
    ensures CrcBits(8, 4) == 0x4624
    ensures CrcBits(8, 5) == 0x57ad
    ensures CrcBits(8, 6) == 0x6536
    ensures CrcBits(8, 7) == 0x74bf
  {
  }

  lemma CrcOfLow8To11()
    ensures CrcBits(8, 8) == 0x8c48
    ensures CrcBits(8, 9) == 0x9dc1
    ensures CrcBits(8, 10) == 0xaf5a
    ensures CrcBits(8, 11) == 0xbed3
  {
  }

  lemma CrcOfLow12To15()
    ensures CrcBits(8, 12) == 0xca6c
    ensures CrcBits(8, 13) == 0xdbe5
    ensures CrcBits(8, 14) == 0xe97e
    ensures CrcBits(8, 15) == 0xf8f7
  {
  }

  lemma FirstRow0To7(l: nat)
    requires 0 <= l < 8
    ensures FcsTab(0)[l] == CrcBits(8, NibbleBits(l) as bv16)
  {
    hide CrcBits;
    CrcOfLow0To3();
    CrcOfLow4To7();
  }

  lemma FirstRow8To15(l: nat)
    requires 8 <= l < 16
    ensures FcsTab(0)[l] == CrcBits(8, NibbleBits(l) as bv16)
  {
    hide CrcBits;
    CrcOfLow8To11();
    CrcOfLow12To15();
  }

  lemma FirstRow(l: nat)
    requires l < 16
    ensures FcsTab(0)[l] == CrcBits(8, NibbleBits(l) as bv16)
  {
    hide FcsTab, CrcBits, NibbleBits;
    if l < 8 {
      FirstRow0To7(l);
    } else {
      FirstRow8To15(l);
    }
  }

  lemma RowFromEntry(base: bv16, l: nat)
    requires l < 16
    ensures RowFrom(base)[l] == Xor16(base, CrcBits(8, NibbleBits(l) as bv16))
  {
    hide Xor16, CrcBits, NibbleBits;
    FirstRow(l);
    XorSelf(0, base);
    assert RowFrom(base)[l] == Xor16(base, FcsTab(0)[l]);
  }

  lemma TableRows0To3(h: nat)
    requires 0 <= h < 4
    ensures FcsTab(h) == RowFrom(FcsTab(h)[0])
  {
    if h == 0 { assert FcsTab(0) == RowFrom(0x0000); }
    else if h == 1 { assert FcsTab(1) == RowFrom(0x1081); }
    else if h == 2 { assert FcsTab(2) == RowFrom(0x2102); }
    else { assert FcsTab(3) == RowFrom(0x3183); }
  }

  lemma TableRows4To7(h: nat)
    requires 4 <= h < 8
    ensures FcsTab(h) == RowFrom(FcsTab(h)[0])
  {
    if h == 4 { assert FcsTab(4) == RowFrom(0x4204); }
    else if h == 5 { assert FcsTab(5) == RowFrom(0x5285); }
    else if h == 6 { assert FcsTab(6) == RowFrom(0x6306); }
    else { assert FcsTab(7) == RowFrom(0x7387); }
  }

  lemma TableRows8To11(h: nat)
    requires 8 <= h < 12
    ensures FcsTab(h) == RowFrom(FcsTab(h)[0])
  {
    if h == 8 { assert FcsTab(8) == RowFrom(0x8408); }
    else if h == 9 { assert FcsTab(9) == RowFrom(0x9489); }
    else if h == 10 { assert FcsTab(10) == RowFrom(0xa50a); }
    else { assert FcsTab(11) == RowFrom(0xb58b); }
  }

  lemma TableRows12To15(h: nat)
    requires 12 <= h < 16
    ensures FcsTab(h) == RowFrom(FcsTab(h)[0])
  {
    if h == 12 { assert FcsTab(12) == RowFrom(0xc60c); }
    else if h == 13 { assert FcsTab(13) == RowFrom(0xd68d); }
    else if h == 14 { assert FcsTab(14) == RowFrom(0xe70e); }
    else { assert FcsTab(15) == RowFrom(0xf78f); }
  }

  lemma CrcOfHigh0To3()
    ensures CrcBits(8, 0x00) == 0x0000
    ensures CrcBits(8, 0x10) == 0x1081
    ensures CrcBits(8, 0x20) == 0x2102
    ensures CrcBits(8, 0x30) == 0x3183
  {
  }

  lemma CrcOfHigh4To7()
    ensures CrcBits(8, 0x40) == 0x4204
    ensures CrcBits(8, 0x50) == 0x5285
    ensures CrcBits(8, 0x60) == 0x6306
    ensures CrcBits(8, 0x70) == 0x7387
  {
  }

  lemma CrcOfHigh8To11()
    ensures CrcBits(8, 0x80) == 0x8408
    ensures CrcBits(8, 0x90) == 0x9489
    ensures CrcBits(8, 0xa0) == 0xa50a
    ensures CrcBits(8, 0xb0) == 0xb58b
  {
  }

  lemma CrcOfHigh12To15()
    ensures CrcBits(8, 0xc0) == 0xc60c
    ensures CrcBits(8, 0xd0) == 0xd68d
    ensures CrcBits(8, 0xe0) == 0xe70e
    ensures CrcBits(8, 0xf0) == 0xf78f
  {
  }

  lemma TableColumn0To7(h: nat)
    requires 0 <= h < 8
    ensures FcsTab(h)[0] == CrcBits(8, (NibbleBits(h) as bv16) << 4)
  {
    hide CrcBits;
    CrcOfHigh0To3();
    CrcOfHigh4To7();
  }

  lemma TableColumn8To15(h: nat)
    requires 8 <= h < 16
    ensures FcsTab(h)[0] == CrcBits(8, (NibbleBits(h) as bv16) << 4)
  {
    hide CrcBits;
    CrcOfHigh8To11();
    CrcOfHigh12To15();
  }

  lemma TableColumn(h: nat)
    requires h < 16
    ensures FcsTab(h)[0] == CrcBits(8, (NibbleBits(h) as bv16) << 4)
  {
    hide FcsTab, CrcBits, NibbleBits;
    if h < 8 {
      TableColumn0To7(h);
    } else {
      TableColumn8To15(h);
    }
  }

  lemma WideByNibbles(i: byte)
    ensures Wide(i) == Xor16((NibbleBits(i / 16) as bv16) << 4, NibbleBits(i % 16) as bv16)
  {
    var h, l := NibbleBits(i / 16), NibbleBits(i % 16);
    hide NibbleBits;
    assert ((h << 4) | l) as bv16 == (h as bv16 << 4) ^ (l as bv16);
  }

  lemma TableEntryIsCrc(i: byte)
    ensures TableEntry(i) == CrcBits(8, Wide(i))
  {
    hide CrcBits, NibbleBits, Xor16, Wide, FcsTab, RowFrom;
    var h, l := NibbleBits(i / 16) as bv16, NibbleBits(i % 16) as bv16;
    if i < 64 {
      TableRows0To3(i / 16);
    } else if i < 128 {
      TableRows4To7(i / 16);
    } else if i < 192 {
      TableRows8To11(i / 16);
    } else {
      TableRows12To15(i / 16);
    }
    RowFromEntry(FcsTab(i / 16)[0], i % 16);
    TableColumn(i / 16);
    WideByNibbles(i);
    CrcBitsLinear(8, h << 4, l);
  }

  // ----- the loop of the source -----

  function TableStep(fcs: bv16, c: byte): bv16 {
    Xor16(ShiftDown(fcs), TableEntry(LowByte(Xor16(fcs, Wide(c)))))
  }

  lemma SplitRegister(fcs: bv16, c: byte)
    ensures var y := Xor16(fcs, Wide(c));
      Xor16(High(y), Low(y)) == y && Low(High(y)) == 0 && ShiftDown(High(y)) == ShiftDown(fcs)
  {
    var w := Wide(c);
    assert w <= 0xff;
    hide Wide;
  }

  lemma WideOfLowByte(x: bv16)
    ensures Wide(LowByte(x)) == Low(x)
  {
    ByteBitsOfValue((x & 0xff) as bv8);
  }

  lemma WideOfHighByte(x: bv16)
    ensures Wide(HighByte(x)) == ShiftDown(x)
  {
    ByteBitsOfValue((x >> 8) as bv8);
  }

  lemma TableStepIsCrcStep(fcs: bv16, c: byte)
    ensures TableStep(fcs, c) == CrcStep(fcs, c)
  {
    hide CrcBits, Xor16, Wide, TableEntry, LowByte, Low, High, ShiftDown;
    var y := Xor16(fcs, Wide(c));
    SplitRegister(fcs, c);
    CrcBitsLinear(8, High(y), Low(y));
    CrcBitsHigh(High(y));
    WideOfLowByte(y);
    TableEntryIsCrc(LowByte(y));
  }

  lemma {:induction false} CrcConcat(fcs: bv16, s: seq<byte>, t: seq<byte>)
    ensures Crc(fcs, s + t) == Crc(Crc(fcs, s), t)
    decreases s
  {
    hide CrcStep;
    if s == [] {
      assert s + t == t;
    } else {
      assert (s + t)[1..] == s[1..] + t;
      CrcConcat(CrcStep(fcs, s[0]), s[1..], t);
    }
  }

  lemma CrcSnoc(fcs: bv16, s: seq<byte>, c: byte)
    ensures Crc(fcs, s + [c]) == CrcStep(Crc(fcs, s), c)
  {
    hide CrcStep;
    CrcConcat(fcs, s, [c]);
    assert Crc(Crc(fcs, s), [c]) == Crc(CrcStep(Crc(fcs, s), c), []);
  }

  /** sstp_frame_check: the table-driven loop computes the bit-by-bit CRC, from any register value. */
  method FrameCheck(fcs0: bv16, cp: array<byte>, from: nat, len: nat) returns (fcs: bv16)
    requires from + len <= cp.Length
    ensures fcs == Crc(fcs0, cp[from..from + len])
  {
    fcs := fcs0;
    var at := from;
    while at < from + len
      invariant from <= at <= from + len
      invariant fcs == Crc(fcs0, cp[from..at])
    {
      hide TableStep, CrcStep;
      TableStepIsCrcStep(fcs, cp[at]);
      CrcSnoc(fcs0, cp[from..at], cp[at]);
      assert cp[from..at + 1] == cp[from..at] + [cp[at]];
      fcs := TableStep(fcs, cp[at]);
      at := at + 1;
    }
  }

  // ----- the residue -----

  function FcsField(s: seq<byte>): (field: seq<byte>) {
    var fcs := Complement(Crc(PPPINITFCS16, s));
    [LowByte(fcs), HighByte(fcs)]
  }

  lemma ComplementSplit(x: bv16)
    ensures Xor16(x, Low(Complement(x))) == Xor16(High(x), 0xff)
    ensures Low(High(x)) == 0
    ensures Xor16(Xor16(ShiftDown(High(x)), 0x0f78), ShiftDown(Complement(x))) == 0x0f87
  {
  }

  lemma CrcOfOnes()
    ensures CrcBits(8, 0xff) == 0x0f78
    ensures CrcBits(8, 0x0f87) == 0xf0b8
  {
  }

  // Two more steps over the complemented register always end in the good value.
  lemma ResidueStep(x: bv16)
    ensures CrcStep(CrcStep(x, LowByte(Complement(x))), HighByte(Complement(x))) == PPPGOODFCS16
  {
    hide CrcBits, Xor16, Wide, LowByte, HighByte, Low, High, ShiftDown, Complement;
    WideOfLowByte(Complement(x));
    WideOfHighByte(Complement(x));
    ComplementSplit(x);
    CrcBitsLinear(8, High(x), 0xff);
    CrcBitsHigh(High(x));
    CrcOfOnes();
  }

  /** Every message followed by its frame check field has the good residue 0xf0b8. */
  lemma GoodResidue(s: seq<byte>)
    ensures Crc(PPPINITFCS16, s + FcsField(s)) == PPPGOODFCS16
  {
    hide CrcStep, LowByte, HighByte, Complement;
    var x := Crc(PPPINITFCS16, s);
    CrcPair(s, LowByte(Complement(x)), HighByte(Complement(x)));
    ResidueStep(x);
  }

  // ----- error detection -----

  lemma CrcStepInjective(f: bv16, g: bv16, c: byte)
    requires CrcStep(f, c) == CrcStep(g, c)
    ensures f == g
  {
    hide CrcBits, Wide, Xor16;
    CrcBitsInjective(8, Xor16(f, Wide(c)), Xor16(g, Wide(c)));
    XorCommutative(f, Wide(c));
    XorCommutative(g, Wide(c));
    XorCancel(Wide(c), f, g);
  }

  lemma {:induction false} CrcInjective(f: bv16, g: bv16, s: seq<byte>)
    requires Crc(f, s) == Crc(g, s)
    ensures f == g
    decreases s
  {
    hide CrcStep;
    if s == [] {
    } else {
      CrcInjective(CrcStep(f, s[0]), CrcStep(g, s[0]), s[1..]);
      CrcStepInjective(f, g, s[0]);
    }
  }

  // The high bytes of the table entries are distinct: no nonzero byte leaves the register below 0x100.
  lemma HighBytesDistinct(d: bv16)
    requires High(d) == 0 && High(CrcBits(8, d)) == 0
    ensures d == 0
  {
  }

  lemma WideInjective(a: byte, b: byte)
    requires Wide(a) == Wide(b)
    ensures a == b
  {
    hide ByteBits, ByteValue;
    ByteValueOfBits(a);
    ByteValueOfBits(b);
  }

  lemma HighOfWides(a: byte, b: byte)
    ensures High(Xor16(Wide(a), Wide(b))) == 0
  {
    var v, w := Wide(a), Wide(b);
    assert v <= 0xff && w <= 0xff;
    hide Wide;
  }

  lemma XorSelf(x: bv16, y: bv16)
    ensures Xor16(x, x) == 0 && Xor16(0, y) == y && Xor16(y, 0) == y
  {
  }

  lemma XorFront(f: bv16, v: bv16, w: bv16)
    ensures Xor16(Xor16(f, v), Xor16(f, w)) == Xor16(v, w)
  {
    hide Xor16;
    XorRegroup(f, v, f, w);
    XorSelf(f, Xor16(v, w));
  }

  lemma XorSolve(x: bv16, y: bv16, v: bv16, w: bv16)
    requires Xor16(x, v) == Xor16(y, w)
    ensures Xor16(x, y) == Xor16(v, w)
  {
    hide Xor16;
    XorRegroup(x, v, y, v);
    XorSelf(v, Xor16(x, y));
    XorFront(y, w, v);
    XorCommutative(w, v);
  }

  lemma XorZero(x: bv16, y: bv16)
    requires Xor16(x, y) == 0
    ensures x == y
  {
  }

  // Two octets enter a 16-bit register without loss.
  lemma PairInjective(f: bv16, a: byte, b: byte, c: byte, d: byte)
    requires CrcStep(CrcStep(f, a), b) == CrcStep(CrcStep(f, c), d)
    ensures a == c && b == d
  {
    hide CrcBits, Xor16, Wide, High;
    var x, y := CrcStep(f, a), CrcStep(f, c);
    CrcBitsInjective(8, Xor16(x, Wide(b)), Xor16(y, Wide(d)));
    XorSolve(x, y, Wide(b), Wide(d));
    HighOfWides(b, d);
    CrcBitsLinear(8, Xor16(f, Wide(a)), Xor16(f, Wide(c)));
    XorFront(f, Wide(a), Wide(c));
    HighOfWides(a, c);
    HighBytesDistinct(Xor16(Wide(a), Wide(c)));
    XorZero(Wide(a), Wide(c));
    WideInjective(a, c);
    XorCancel(x, Wide(b), Wide(d));
    WideInjective(b, d);
  }

  /** Any corruption confined to two adjacent octets changes the frame check sequence, whatever the
      length of the message and wherever the corruption falls. `k` is the first octet that differs. */
  lemma AdjacentErrorDetected(f: bv16, s: seq<byte>, t: seq<byte>, k: nat)
    requires |s| == |t| && k < |s| && s[k] != t[k]
    requires forall i :: 0 <= i < |s| && i != k && i != k + 1 ==> s[i] == t[i]
    ensures Crc(f, s) != Crc(f, t)
  {
    hide CrcStep;
    assert s[..k] == t[..k];
    assert s == s[..k] + s[k..] && t == t[..k] + t[k..];
    CrcConcat(f, s[..k], s[k..]);
    CrcConcat(f, t[..k], t[k..]);
    var g := Crc(f, s[..k]);
    if Crc(f, s) == Crc(f, t) {
      var gs, gt := CrcStep(g, s[k]), CrcStep(g, t[k]);
      assert s[k..][1..] == s[k + 1..] && t[k..][1..] == t[k + 1..];
      if k + 1 == |s| {
        PairInjective(g, s[k], 0, t[k], 0);
      } else {
        assert s[k + 1..][1..] == s[k + 2..] == t[k + 2..] == t[k + 1..][1..];
        CrcInjective(CrcStep(gs, s[k + 1]), CrcStep(gt, t[k + 1]), s[k + 2..]);
        PairInjective(g, s[k], s[k + 1], t[k], t[k + 1]);
      }
    }
  }

  /** The residue is good for exactly those messages that end in their own frame check field. */
  lemma GoodResidueIff(s: seq<byte>, a: byte, b: byte)
    ensures Crc(PPPINITFCS16, s + [a, b]) == PPPGOODFCS16 <==> [a, b] == FcsField(s)
  {
    hide CrcStep, LowByte, HighByte, Complement;
    GoodResidue(s);
    var x := Crc(PPPINITFCS16, s);
    var field := FcsField(s);
    CrcPair(s, a, b);
    CrcPair(s, field[0], field[1]);
    assert field == [field[0], field[1]];
    if Crc(PPPINITFCS16, s + [a, b]) == PPPGOODFCS16 {
      PairInjective(x, a, b, field[0], field[1]);
    }
  }

  lemma CrcPair(s: seq<byte>, a: byte, b: byte)
    ensures Crc(PPPINITFCS16, s + [a, b]) == CrcStep(CrcStep(Crc(PPPINITFCS16, s), a), b)
  {
    hide CrcStep;
    assert s + [a, b] == s + [a] + [b];
    CrcSnoc(PPPINITFCS16, s, a);
    CrcSnoc(PPPINITFCS16, s + [a], b);
  }
}
