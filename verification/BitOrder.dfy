/** The software bit order of SPI transfers: bcm2835_correct_order and its table.
    SPI hardware shifts the most significant bit first; for devices that want the
    opposite order every byte goes through a 256-entry reversal table. */
module BitOrder {
  type byte = bv8

  const LSB_FIRST: bv8 := 0
  const MSB_FIRST: bv8 := 1

  // The source's table, its 32 rows of eight entries kept in groups of eight rows.
  const REVERSE_00: seq<seq<byte>> := [
    [0x00, 0x80, 0x40, 0xc0, 0x20, 0xa0, 0x60, 0xe0],
    [0x10, 0x90, 0x50, 0xd0, 0x30, 0xb0, 0x70, 0xf0],
    [0x08, 0x88, 0x48, 0xc8, 0x28, 0xa8, 0x68, 0xe8],
    [0x18, 0x98, 0x58, 0xd8, 0x38, 0xb8, 0x78, 0xf8],
    [0x04, 0x84, 0x44, 0xc4, 0x24, 0xa4, 0x64, 0xe4],
    [0x14, 0x94, 0x54, 0xd4, 0x34, 0xb4, 0x74, 0xf4],
    [0x0c, 0x8c, 0x4c, 0xcc, 0x2c, 0xac, 0x6c, 0xec],
    [0x1c, 0x9c, 0x5c, 0xdc, 0x3c, 0xbc, 0x7c, 0xfc]
  ]
  const REVERSE_40: seq<seq<byte>> := [
    [0x02, 0x82, 0x42, 0xc2, 0x22, 0xa2, 0x62, 0xe2],
    [0x12, 0x92, 0x52, 0xd2, 0x32, 0xb2, 0x72, 0xf2],
    [0x0a, 0x8a, 0x4a, 0xca, 0x2a, 0xaa, 0x6a, 0xea],
    [0x1a, 0x9a, 0x5a, 0xda, 0x3a, 0xba, 0x7a, 0xfa],
    [0x06, 0x86, 0x46, 0xc6, 0x26, 0xa6, 0x66, 0xe6],
    [0x16, 0x96, 0x56, 0xd6, 0x36, 0xb6, 0x76, 0xf6],
    [0x0e, 0x8e, 0x4e, 0xce, 0x2e, 0xae, 0x6e, 0xee],
    [0x1e, 0x9e, 0x5e, 0xde, 0x3e, 0xbe, 0x7e, 0xfe]
  ]
  const REVERSE_80: seq<seq<byte>> := [
    [0x01, 0x81, 0x41, 0xc1, 0x21, 0xa1, 0x61, 0xe1],
    [0x11, 0x91, 0x51, 0xd1, 0x31, 0xb1, 0x71, 0xf1],
    [0x09, 0x89, 0x49, 0xc9, 0x29, 0xa9, 0x69, 0xe9],
    [0x19, 0x99, 0x59, 0xd9, 0x39, 0xb9, 0x79, 0xf9],
    [0x05, 0x85, 0x45, 0xc5, 0x25, 0xa5, 0x65, 0xe5],
    [0x15, 0x95, 0x55, 0xd5, 0x35, 0xb5, 0x75, 0xf5],
    [0x0d, 0x8d, 0x4d, 0xcd, 0x2d, 0xad, 0x6d, 0xed],
    [0x1d, 0x9d, 0x5d, 0xdd, 0x3d, 0xbd, 0x7d, 0xfd]
  ]
  const REVERSE_C0: seq<seq<byte>> := [
    [0x03, 0x83, 0x43, 0xc3, 0x23, 0xa3, 0x63, 0xe3],
    [0x13, 0x93, 0x53, 0xd3, 0x33, 0xb3, 0x73, 0xf3],
    [0x0b, 0x8b, 0x4b, 0xcb, 0x2b, 0xab, 0x6b, 0xeb],
    [0x1b, 0x9b, 0x5b, 0xdb, 0x3b, 0xbb, 0x7b, 0xfb],
    [0x07, 0x87, 0x47, 0xc7, 0x27, 0xa7, 0x67, 0xe7],
    [0x17, 0x97, 0x57, 0xd7, 0x37, 0xb7, 0x77, 0xf7],
    [0x0f, 0x8f, 0x4f, 0xcf, 0x2f, 0xaf, 0x6f, 0xef],
    [0x1f, 0x9f, 0x5f, 0xdf, 0x3f, 0xbf, 0x7f, 0xff]
  ]

  function RowsFrom(b: byte): seq<seq<byte>> {
    if b < 0x40 then REVERSE_00 else if b < 0x80 then REVERSE_40 else if b < 0xc0 then REVERSE_80 else REVERSE_C0
  }

  /** Entry b of the table. */
  function TableEntry(b: byte): byte {
    RowShape(b, (b >> 3) & 0x07);
    RowsFrom(b)[((b >> 3) & 0x07) as nat][(b & 0x07) as nat]
  }

  lemma RowShape(b: byte, r: byte)
    requires r < 8
    ensures |RowsFrom(b)| == 8 && |RowsFrom(b)[r as nat]| == 8
  {
    assert r == 0 || r == 1 || r == 2 || r == 3 || r == 4 || r == 5 || r == 6 || r == 7;
  }

  function CorrectOrder(order: bv8, b: byte): byte {
    if order == LSB_FIRST then TableEntry(b) else b
  }

  /** What the table is meant to hold: bit i of the result is bit 7-i of the argument. */
  function Reversed(b: byte): byte {
    ((b & 0x01) << 7) | ((b & 0x02) << 5) | ((b & 0x04) << 3) | ((b & 0x08) << 1) |
    ((b & 0x10) >> 1) | ((b & 0x20) >> 3) | ((b & 0x40) >> 5) | ((b & 0x80) >> 7)
  }

  /** row holds the reversals of b, b + 1, ..., b + 7. */
  predicate RowReverses(row: seq<byte>, b: byte) {
    && |row| == 8
    && row[0] == Reversed(b) && row[1] == Reversed(b + 1) && row[2] == Reversed(b + 2) && row[3] == Reversed(b + 3)
    && row[4] == Reversed(b + 4) && row[5] == Reversed(b + 5) && row[6] == Reversed(b + 6) && row[7] == Reversed(b + 7)
  }

  lemma FirstRows(r: byte)
    requires r < 8
    ensures |REVERSE_00| == 8 && RowReverses(REVERSE_00[r as nat], 0x00 + 8 * r)
  {
    assert r == 0 || r == 1 || r == 2 || r == 3 || r == 4 || r == 5 || r == 6 || r == 7;
  }

  lemma SecondRows(r: byte)
    requires r < 8
    ensures |REVERSE_40| == 8 && RowReverses(REVERSE_40[r as nat], 0x40 + 8 * r)
  {
    assert r == 0 || r == 1 || r == 2 || r == 3 || r == 4 || r == 5 || r == 6 || r == 7;
  }

  lemma ThirdRows(r: byte)
    requires r < 8
    ensures |REVERSE_80| == 8 && RowReverses(REVERSE_80[r as nat], 0x80 + 8 * r)
  {
    assert r == 0 || r == 1 || r == 2 || r == 3 || r == 4 || r == 5 || r == 6 || r == 7;
  }

  lemma FourthRows(r: byte)
    requires r < 8
    ensures |REVERSE_C0| == 8 && RowReverses(REVERSE_C0[r as nat], 0xc0 + 8 * r)
  {
    assert r == 0 || r == 1 || r == 2 || r == 3 || r == 4 || r == 5 || r == 6 || r == 7;
  }

  lemma RowOfIndex(b: byte, r: byte)
    requires r == (b >> 3) & 0x07
    ensures |RowsFrom(b)| == 8 && RowReverses(RowsFrom(b)[r as nat], (b & 0xc0) + 8 * r)
  {
    if b < 0x40 {
      FirstRows(r);
    } else if b < 0x80 {
      SecondRows(r);
    } else if b < 0xc0 {
      ThirdRows(r);
    } else {
      FourthRows(r);
    }
  }

  lemma PickEntry(row: seq<byte>, first: byte, c: byte)
    requires RowReverses(row, first) && c < 8
    ensures c as nat < |row| && row[c as nat] == Reversed(first + c)
  {
    assert c == 0 || c == 1 || c == 2 || c == 3 || c == 4 || c == 5 || c == 6 || c == 7;
  }

  /** All 256 entries of the table reverse their index. */
  lemma TableReverses(b: byte)
    ensures TableEntry(b) == Reversed(b)
  {
    var r := (b >> 3) & 0x07;
    RowOfIndex(b, r);
    PickEntry(RowsFrom(b)[r as nat], (b & 0xc0) + 8 * r, b & 0x07);
    SplitIndex(b);
  }

  lemma SplitIndex(b: byte)
    ensures b == (b & 0xc0) + 8 * ((b >> 3) & 0x07) + (b & 0x07)
    ensures (b >> 3) & 0x07 < 8 && b & 0x07 < 8
  {
  }

  /** Bit i of a reversed byte is bit 7-i of the byte. */
  lemma ReversedBits(b: byte, i: bv8)
    requires i < 8
    ensures (Reversed(b) >> i) & 1 == (b >> (7 - i)) & 1
  {
    assert i == 0 || i == 1 || i == 2 || i == 3 || i == 4 || i == 5 || i == 6 || i == 7;
  }

  /** With order 0, least significant bit first, every byte is reversed; otherwise none is. */
  lemma CorrectOrderIs(order: bv8, b: byte)
    ensures CorrectOrder(order, b) == if order == 0 then Reversed(b) else b
  {
    TableReverses(b);
  }

  lemma ReversedTwice(b: byte)
    ensures Reversed(Reversed(b)) == b
  {
  }

  /** In either bit order the correction undoes itself. */
  lemma CorrectOrderInvolutive(order: bv8, b: byte)
    ensures CorrectOrder(order, CorrectOrder(order, b)) == b
  {
    TableReverses(b);
    TableReverses(CorrectOrder(order, b));
    ReversedTwice(b);
  }
}
