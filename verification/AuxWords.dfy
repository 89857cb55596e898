/** How the auxiliary SPI carries bytes in 32-bit words: up to three per word, packed from
    bit 23 down under a length tag on the way out, right-justified on the way in. */
module AuxWords {
  import opened BitOrder
  import opened Wire

  /** Number of words a message of n bytes takes. */
  function WordCount(n: nat): nat {
    (n + 2) / 3
  }

  /** The k-th chunk of a message: three bytes, or what is left. */
  function Chunk(s: seq<byte>, k: nat): (c: seq<byte>)
    requires k < WordCount(|s|)
    ensures 1 <= |c| <= 3 && (k + 1 < WordCount(|s|) ==> |c| == 3)
  {
    if 3 * k + 3 <= |s| then s[3 * k..3 * k + 3] else s[3 * k..]
  }

  lemma ChunkIsSlice(s: seq<byte>, k: nat)
    requires k < WordCount(|s|)
    ensures Chunk(s, k) == s[3 * k..3 * k + |Chunk(s, k)|]
  {
  }

  function Chunks(s: seq<byte>, k: nat): (cs: seq<seq<byte>>)
    requires k <= WordCount(|s|)
    ensures |cs| == k
  {
    seq(k, i requires 0 <= i < k => Chunk(s, i))
  }

  /** Bytes in the first k chunks of a message of n bytes. */
  function Covered(n: nat, k: nat): nat {
    if 3 * k <= n then 3 * k else n
  }

  lemma {:induction false} ChunksFlatten(s: seq<byte>, k: nat)
    requires k <= WordCount(|s|)
    ensures Flatten(Chunks(s, k)) == s[..Covered(|s|, k)]
  {
    if k > 0 {
      var last := Chunk(s, k - 1);
      ChunksFlatten(s, k - 1);
      assert Chunks(s, k) == Chunks(s, k - 1) + [last];
      FlattenOneMore(Chunks(s, k - 1), last);
      ChunkIsSlice(s, k - 1);
      assert Covered(|s|, k - 1) == 3 * k - 3 && Covered(|s|, k) == 3 * k - 3 + |last|;
    }
  }

  /** The chunks of a message put together again are the message. */
  lemma ChunksRoundTrip(s: seq<byte>)
    ensures Flatten(Chunks(s, WordCount(|s|))) == s
  {
    ChunksFlatten(s, WordCount(|s|));
  }

  // ----- transmit words -----

  /** The data bits of a transmit word. */
  function Placed(c: seq<byte>): bv32
    requires |c| <= 3
  {
    (if 0 < |c| then (c[0] as bv32) << 16 else 0) |
    (if 1 < |c| then (c[1] as bv32) << 8 else 0) |
    (if 2 < |c| then c[2] as bv32 else 0)
  }

  function Tag(count: nat): bv32
    requires count <= 3
  {
    ((count * 8) as bv32) << 24
  }

  function TxWord(c: seq<byte>): bv32
    requires |c| <= 3
  {
    Placed(c) | Tag(|c|)
  }

  predicate LegalTag(word: bv32) {
    word >> 24 == 8 || word >> 24 == 16 || word >> 24 == 24
  }

  /** The bytes the shift register sends for a word: as many as the tag says, from bit 23 down. */
  function Payload(word: bv32): (c: seq<byte>)
    ensures |c| <= 3
  {
    var first := ((word >> 16) & 0xff) as byte;
    var second := ((word >> 8) & 0xff) as byte;
    var third := (word & 0xff) as byte;
    if word >> 24 == 8 then [first]
    else if word >> 24 == 16 then [first, second]
    else if word >> 24 == 24 then [first, second, third]
    else []
  }

  /** The tag never overlaps the data bits, it is eight times the byte count, and the word
      sends exactly the bytes that were packed. */
  lemma PackedWordSendsItsBytes(c: seq<byte>)
    requires 1 <= |c| <= 3
    ensures Placed(c) & 0xff000000 == 0 && Tag(|c|) & 0x00ffffff == 0
    ensures LegalTag(TxWord(c)) && TxWord(c) >> 24 == (8 * |c|) as bv32
    ensures Payload(TxWord(c)) == c
  {
    match |c|
    case 1 => PackOne(c);
    case 2 => PackTwo(c);
    case _ => PackThree(c);
  }

  lemma PackOne(c: seq<byte>)
    requires |c| == 1
    ensures Placed(c) & 0xff000000 == 0 && Tag(|c|) & 0x00ffffff == 0
    ensures LegalTag(TxWord(c)) && TxWord(c) >> 24 == (8 * |c|) as bv32
    ensures Payload(TxWord(c)) == c
  {
    assert Tag(1) == 0x08000000;
  }

  lemma PackTwo(c: seq<byte>)
    requires |c| == 2
    ensures Placed(c) & 0xff000000 == 0 && Tag(|c|) & 0x00ffffff == 0
    ensures LegalTag(TxWord(c)) && TxWord(c) >> 24 == (8 * |c|) as bv32
    ensures Payload(TxWord(c)) == c
  {
    assert Tag(2) == 0x10000000;
  }

  lemma PackThree(c: seq<byte>)
    requires |c| == 3
    ensures Placed(c) & 0xff000000 == 0 && Tag(|c|) & 0x00ffffff == 0
    ensures LegalTag(TxWord(c)) && TxWord(c) >> 24 == (8 * |c|) as bv32
    ensures Payload(TxWord(c)) == c
  {
    assert Tag(3) == 0x18000000;
  }

  /** Bits 31 to 24 hold eight times the byte count; the bytes follow from bit 23 down, and what
      is left is zero. */
  lemma TxWordIs(c: seq<byte>)
    requires 1 <= |c| <= 3
    ensures TxWord(c) >> 24 == (if |c| == 1 then 8 else if |c| == 2 then 16 else 24)
    ensures (TxWord(c) >> 16) & 0xff == c[0] as bv32
    ensures (TxWord(c) >> 8) & 0xff == if |c| > 1 then c[1] as bv32 else 0
    ensures TxWord(c) & 0xff == if |c| > 2 then c[2] as bv32 else 0
  {
    match |c|
    case 1 => OneByteWord(c);
    case 2 => TwoByteWord(c);
    case _ => ThreeByteWord(c);
  }

  lemma OneByteWord(c: seq<byte>)
    requires |c| == 1
    ensures TxWord(c) >> 24 == 8 && (TxWord(c) >> 16) & 0xff == c[0] as bv32 && TxWord(c) & 0xffff == 0
    ensures (TxWord(c) >> 8) & 0xff == 0 && TxWord(c) & 0xff == 0
  {
    assert Tag(1) == 0x08000000;
  }

  lemma TwoByteWord(c: seq<byte>)
    requires |c| == 2
    ensures TxWord(c) >> 24 == 16 && (TxWord(c) >> 16) & 0xff == c[0] as bv32
    ensures (TxWord(c) >> 8) & 0xff == c[1] as bv32 && TxWord(c) & 0xff == 0
  {
    assert Tag(2) == 0x10000000;
  }

  lemma ThreeByteWord(c: seq<byte>)
    requires |c| == 3
    ensures TxWord(c) >> 24 == 24 && (TxWord(c) >> 16) & 0xff == c[0] as bv32
    ensures (TxWord(c) >> 8) & 0xff == c[1] as bv32 && TxWord(c) & 0xff == c[2] as bv32
  {
    assert Tag(3) == 0x18000000;
  }

  // ----- receive words -----

  /** What the shift register leaves in the IO register after n answers: the answers
      right-justified under whatever was there before. */
  function RxWord(answers: seq<byte>, stale: bv32): bv32
    requires 1 <= |answers| <= 3
  {
    if |answers| == 1 then (stale << 8) | (answers[0] as bv32)
    else if |answers| == 2 then (stale << 16) | ((answers[0] as bv32) << 8) | (answers[1] as bv32)
    else (stale << 24) | ((answers[0] as bv32) << 16) | ((answers[1] as bv32) << 8) | (answers[2] as bv32)
  }

  /** The bytes the receive switch stores, falling through from the case of the count. */
  function Unpack(word: bv32, count: nat): (c: seq<byte>)
    requires count <= 3
    ensures |c| == count
  {
    (if count >= 3 then [((word >> 16) & 0xff) as byte] else []) +
    (if count >= 2 then [((word >> 8) & 0xff) as byte] else []) +
    (if count >= 1 then [(word & 0xff) as byte] else [])
  }

  /** The last byte stored is the low byte of the word, and those before it are next to it. */
  lemma UnpackIs(word: bv32, count: nat)
    requires 1 <= count <= 3
    ensures Unpack(word, count)[count - 1] == (word & 0xff) as byte
    ensures count >= 2 ==> Unpack(word, count)[count - 2] == ((word >> 8) & 0xff) as byte
    ensures count == 3 ==> Unpack(word, count)[0] == ((word >> 16) & 0xff) as byte
  {
  }

  lemma UnpackReceived(answers: seq<byte>, stale: bv32)
    requires 1 <= |answers| <= 3
    ensures Unpack(RxWord(answers, stale), |answers|) == answers
  {
    match |answers|
    case 1 => UnpackOne(answers, stale);
    case 2 => UnpackTwo(answers, stale);
    case _ => UnpackThree(answers, stale);
  }

  lemma UnpackOne(answers: seq<byte>, stale: bv32)
    requires |answers| == 1
    ensures Unpack(RxWord(answers, stale), |answers|) == answers
  {
  }

  lemma UnpackTwo(answers: seq<byte>, stale: bv32)
    requires |answers| == 2
    ensures Unpack(RxWord(answers, stale), |answers|) == answers
  {
  }

  lemma UnpackThree(answers: seq<byte>, stale: bv32)
    requires |answers| == 3
    ensures Unpack(RxWord(answers, stale), |answers|) == answers
  {
  }

  /** Shifting a packed word through an echoing device and unpacking it gives the chunk back. */
  lemma WordLoopback(c: seq<byte>, past: seq<byte>, stale: bv32)
    requires 1 <= |c| <= 3
    ensures Unpack(RxWord(Exchange((_, b) => b, past, Payload(TxWord(c))), stale), |c|) == c
  {
    PackedWordSendsItsBytes(c);
    assert Exchange((_, b) => b, past, c) == c;
    UnpackReceived(c, stale);
  }
}
