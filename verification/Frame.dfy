/** The 40-bit frame of a DHT11: five bytes, the last the sum of the others. Bytes are the
    ints the driver keeps them in. */
module Frame {
  type Octet = b: int | 0 <= b < 256

  /** The value of a string of bits, most significant first. */
  function ValueOf(bits: seq<int>): int {
    if bits == [] then 0 else 2 * ValueOf(bits[..|bits| - 1]) + bits[|bits| - 1]
  }

  lemma ValueOneMore(bits: seq<int>, b: int)
    ensures ValueOf(bits + [b]) == 2 * ValueOf(bits) + b
  {
    assert (bits + [b])[..|bits|] == bits;
  }

  lemma ValueOfFour(a: int, b: int, c: int, d: int)
    ensures ValueOf([a, b, c, d]) == 8 * a + 4 * b + 2 * c + d
  {
    ValueOneMore([], a);
    ValueOneMore([a], b);
    ValueOneMore([a, b], c);
    ValueOneMore([a, b, c], d);
    assert [] + [a] == [a] && [a] + [b] == [a, b] && [a, b] + [c] == [a, b, c] && [a, b, c] + [d] == [a, b, c, d];
  }

  lemma ValueOfEight(s: seq<int>)
    requires |s| == 8
    ensures ValueOf(s) == 128 * s[0] + 64 * s[1] + 32 * s[2] + 16 * s[3] + 8 * s[4] + 4 * s[5] + 2 * s[6] + s[7]
  {
    ValueOfFour(s[0], s[1], s[2], s[3]);
    assert s[..4] == [s[0], s[1], s[2], s[3]];
    ValueOneMore(s[..4], s[4]);
    ValueOneMore(s[..5], s[5]);
    ValueOneMore(s[..6], s[6]);
    ValueOneMore(s[..7], s[7]);
    assert s[..4] + [s[4]] == s[..5] && s[..5] + [s[5]] == s[..6];
    assert s[..6] + [s[6]] == s[..7] && s[..7] + [s[7]] == s;
  }

  predicate AllBits(s: seq<int>) {
    forall i :: 0 <= i < |s| ==> s[i] == 0 || s[i] == 1
  }

  /** The n low bits of b, most significant first. */
  function Binary(b: nat, n: nat): (bits: seq<int>)
    ensures |bits| == n && AllBits(bits)
  {
    if n == 0 then [] else Binary(b / 2, n - 1) + [b % 2]
  }

  function TwoTo(n: nat): nat {
    if n == 0 then 1 else 2 * TwoTo(n - 1)
  }

  lemma {:induction false} BinaryRoundTrip(b: nat, n: nat)
    requires b < TwoTo(n)
    ensures ValueOf(Binary(b, n)) == b
  {
    if n > 0 {
      BinaryRoundTrip(b / 2, n - 1);
      ValueOneMore(Binary(b / 2, n - 1), b % 2);
    }
  }

  function BitsOf(b: Octet): (bits: seq<int>)
    ensures |bits| == 8 && AllBits(bits)
  {
    Binary(b, 8)
  }

  /** Sending a byte bit by bit and collecting the bits gives the byte back. */
  lemma ByteRoundTrip(b: Octet)
    ensures ValueOf(BitsOf(b)) == b
  {
    assert TwoTo(8) == 256 by {
      assert TwoTo(4) == 16;
    }
    BinaryRoundTrip(b, 8);
  }

  type Bits = s: seq<int> | |s| == 40 && AllBits(s) witness seq(40, _ => 0)
  type Bytes = f: seq<int> | |f| == 5 && forall i :: 0 <= i < 5 ==> 0 <= f[i] < 256 witness [0, 0, 0, 0, 0]

  function ByteAt(bits: Bits, i: nat): (b: Octet)
    requires i < 5
  {
    ValueOfEight(bits[8 * i..8 * i + 8]);
    ValueOf(bits[8 * i..8 * i + 8])
  }

  lemma ByteAtIs(bits: Bits, i: nat)
    requires i < 5
    ensures var k := 8 * i;
            ByteAt(bits, i) == 128 * bits[k] + 64 * bits[k + 1] + 32 * bits[k + 2] + 16 * bits[k + 3]
                               + 8 * bits[k + 4] + 4 * bits[k + 5] + 2 * bits[k + 6] + bits[k + 7]
  {
    ValueOfEight(bits[8 * i..8 * i + 8]);
  }

  function BytesOf(bits: Bits): Bytes {
    [ByteAt(bits, 0), ByteAt(bits, 1), ByteAt(bits, 2), ByteAt(bits, 3), ByteAt(bits, 4)]
  }

  /** The 40 bits of a frame in the order they are sent. */
  function FrameBits(f: Bytes): Bits {
    BitsOf(f[0]) + BitsOf(f[1]) + BitsOf(f[2]) + BitsOf(f[3]) + BitsOf(f[4])
  }

  /** Byte after byte, each with its most significant bit first. */
  lemma FrameBitAt(f: Bytes, k: nat)
    requires k < 40
    ensures FrameBits(f)[k] == f[k / 8] / [128, 64, 32, 16, 8, 4, 2, 1][k % 8] % 2
  {
    hide Binary;
    BitOfByte(f[k / 8], k % 8);
    assert FrameBits(f)[k] == BitsOf(f[k / 8])[k % 8] by {
      hide BitsOf;
    }
  }

  lemma BitOfByte(b: Octet, m: nat)
    requires m < 8
    ensures BitsOf(b)[m] == b / [128, 64, 32, 16, 8, 4, 2, 1][m] % 2
  {
    BinaryFour(b / 16);
    BinaryFour(b);
    BinaryHalves(b);
    hide Binary;
    assert b / 16 / 8 == b / 128 && b / 16 / 4 == b / 64 && b / 16 / 2 == b / 32;
    assert BitsOf(b) == [b / 128 % 2, b / 64 % 2, b / 32 % 2, b / 16 % 2, b / 8 % 2, b / 4 % 2, b / 2 % 2, b % 2];
  }

  lemma BinaryFour(b: nat)
    ensures Binary(b, 4) == [b / 8 % 2, b / 4 % 2, b / 2 % 2, b % 2]
  {
    var h, q, e := b / 2, b / 4, b / 8;
    assert Binary(e, 1) == [e % 2] && Binary(q, 2) == [e % 2, q % 2] && Binary(h, 3) == [e % 2, q % 2, h % 2];
  }

  lemma BinaryHalves(b: nat)
    ensures Binary(b, 8) == Binary(b / 16, 4) + Binary(b, 4)
  {
    var h, q, e, x := b / 2, b / 4, b / 8, b / 16;
    BinaryFour(b);
    assert Binary(e, 5) == Binary(x, 4) + [e % 2];
    assert Binary(q, 6) == Binary(x, 4) + [e % 2, q % 2];
    assert Binary(h, 7) == Binary(x, 4) + [e % 2, q % 2, h % 2];
  }

  lemma FrameRoundTrip(f: Bytes)
    ensures BytesOf(FrameBits(f)) == f
  {
    var s := FrameBits(f);
    assert s[0..8] == BitsOf(f[0]) && s[8..16] == BitsOf(f[1]) && s[16..24] == BitsOf(f[2]);
    assert s[24..32] == BitsOf(f[3]) && s[32..40] == BitsOf(f[4]);
    ByteRoundTrip(f[0]);
    ByteRoundTrip(f[1]);
    ByteRoundTrip(f[2]);
    ByteRoundTrip(f[3]);
    ByteRoundTrip(f[4]);
  }

  /** The driver's test, made before the sign bit is taken off the third byte. */
  predicate Consistent(f: Bytes) {
    f[4] == (f[0] + f[1] + f[2] + f[3]) % 256
  }

  /** Hundredths of a percent. */
  function Humidity(f: Bytes): nat {
    f[0] * 100 + f[1] * 10
  }

  /** Hundredths of a degree; the sign is the top bit of the third byte. */
  function Temperature(f: Bytes): int {
    var t := f[2] % 128 * 100 + f[3] * 10;
    if f[2] >= 128 then -t else t
  }

  /** The checksum test and the readings, in the bytes of the frame. */
  lemma FrameMeans(f: Bytes)
    ensures Consistent(f) <==> f[4] == (f[0] + f[1] + f[2] + f[3]) % 256
    ensures Humidity(f) == 100 * f[0] + 10 * f[1]
    ensures Temperature(f) == if f[2] < 128 then 100 * f[2] + 10 * f[3] else -(100 * (f[2] - 128) + 10 * f[3])
  {
  }

  // ----- what the checksum catches -----

  /** The column of a bit in its byte: 7 for the first bit sent, 0 for the last. */
  function Column(k: nat): nat {
    7 - k % 8
  }

  function Power(column: nat): nat
    requires column < 8
  {
    [1, 2, 4, 8, 16, 32, 64, 128][column]
  }

  function Flip(bits: Bits, k: nat): Bits
    requires k < 40
  {
    bits[k := 1 - bits[k]]
  }

  /** How far flipping bit k moves the sum away from the checksum byte: up or down by the
      power of its column, the other way round in the checksum byte itself. */
  function Effect(bits: Bits, k: nat): int
    requires k < 40
  {
    if (bits[k] == 0) == (k < 32) then Power(Column(k)) else 0 - Power(Column(k))
  }

  function Excess(f: Bytes): int {
    f[0] + f[1] + f[2] + f[3] - f[4]
  }

  lemma ConsistentMeansNoExcess(f: Bytes)
    ensures Consistent(f) <==> Excess(f) % 256 == 0
  {
  }

  lemma FlipInByte(s: seq<int>, m: nat)
    requires |s| == 8 && m < 8 && AllBits(s)
    ensures ValueOf(s[m := 1 - s[m]]) == ValueOf(s) + if s[m] == 0 then Power(7 - m) else 0 - Power(7 - m)
  {
    hide ValueOf, AllBits;
    ValueOfEight(s);
    ValueOfEight(s[m := 1 - s[m]]);
    assert s[m] == 0 || s[m] == 1 by {
      BitIn(s, m);
    }
  }

  lemma BitIn(s: seq<int>, m: nat)
    requires m < |s| && AllBits(s)
    ensures s[m] == 0 || s[m] == 1
  {
  }

  lemma FlipByteAt(bits: Bits, k: nat, i: nat)
    requires k < 40 && i < 5
    ensures i != k / 8 ==> ByteAt(Flip(bits, k), i) == ByteAt(bits, i)
    ensures i == k / 8 ==> ByteAt(Flip(bits, k), i) == ByteAt(bits, i) +
                           if bits[k] == 0 then Power(Column(k)) else 0 - Power(Column(k))
  {
    var s, t := bits[8 * i..8 * i + 8], Flip(bits, k)[8 * i..8 * i + 8];
    if i == k / 8 {
      FlipInByte(s, k % 8);
      assert t == s[k % 8 := 1 - s[k % 8]];
    } else {
      assert t == s;
    }
  }

  lemma FlipMovesExcess(bits: Bits, k: nat)
    requires k < 40
    ensures Excess(BytesOf(Flip(bits, k))) == Excess(BytesOf(bits)) + Effect(bits, k)
  {
    FlipByteAt(bits, k, 0);
    FlipByteAt(bits, k, 1);
    FlipByteAt(bits, k, 2);
    FlipByteAt(bits, k, 3);
    FlipByteAt(bits, k, 4);
  }

  /** Every single-bit error is caught. */
  lemma SingleFlipCaught(bits: Bits, k: nat)
    requires Consistent(BytesOf(bits)) && k < 40
    ensures !Consistent(BytesOf(Flip(bits, k)))
  {
    FlipMovesExcess(bits, k);
    ConsistentMeansNoExcess(BytesOf(bits));
    ConsistentMeansNoExcess(BytesOf(Flip(bits, k)));
  }

  /** A double error slips through exactly when both bits are in the same column and move the
      sum opposite ways, or are both in the top column, where either way is the same. */
  lemma DoubleFlipCaught(bits: Bits, k: nat, l: nat)
    requires Consistent(BytesOf(bits)) && k < 40 && l < 40 && k != l
    ensures Consistent(BytesOf(Flip(Flip(bits, k), l))) <==>
              Column(k) == Column(l) && (Column(k) == 7 || Effect(bits, k) == -Effect(bits, l))
  {
    hide BytesOf, Excess, Consistent;
    FlipMovesExcess(bits, k);
    FlipMovesExcess(Flip(bits, k), l);
    ConsistentMeansNoExcess(BytesOf(bits));
    ConsistentMeansNoExcess(BytesOf(Flip(Flip(bits, k), l)));
    Cancels(Column(k), Effect(bits, k), Column(l), Effect(bits, l));
  }

  lemma Cancels(c: nat, x: int, d: nat, y: int)
    requires c < 8 && d < 8 && (x == Power(c) || x == 0 - Power(c)) && (y == Power(d) || y == 0 - Power(d))
    ensures (x + y) % 256 == 0 <==> c == d && (c == 7 || x == -y)
  {
  }
}
