/** Transfers on the auxiliary SPI: the peripheral behind its STAT, IO and TXHOLD registers,
    which runs on its own: before every access it takes as many steps as its plan says, and
    nothing is known of the plan. */
module AuxSpi {
  import opened BitOrder
  import opened Wire
  import opened AuxWords
  import opened Fifo

  /** A word on its way out: its bytes, and whether it was written to IO, which lets go of
      the chip select afterwards, rather than to TXHOLD, which keeps it. */
  datatype Word = Word(bytes: Short, last: bool)

  type Short = c: seq<byte> | 1 <= |c| <= 3 witness [0]

  function BytesOf(words: seq<Word>): (cs: seq<seq<byte>>)
    ensures |cs| == |words|
  {
    seq(|words|, i requires 0 <= i < |words| => words[i].bytes)
  }

  lemma BytesOfSplit(a: seq<Word>, b: seq<Word>)
    ensures BytesOf(a + b) == BytesOf(a) + BytesOf(b)
  {
  }

  /** The words a message has to go out as: chip select is held through all but the last. */
  function Framed(out: seq<byte>): (words: seq<Word>)
    ensures |words| == WordCount(|out|)
  {
    seq(WordCount(|out|), i requires 0 <= i < WordCount(|out|) => Word(Chunk(out, i), i + 1 == WordCount(|out|)))
  }

  /** Word k carries bytes 3 k to 3 k + 2 or up to the last, and only the last word is written
      to IO. */
  lemma FramedIs(out: seq<byte>, k: nat)
    requires 3 * k < |out|
    ensures |Framed(out)| == (|out| + 2) / 3 && k < |Framed(out)|
    ensures Framed(out)[k].bytes == out[3 * k..if 3 * k + 3 < |out| then 3 * k + 3 else |out|]
    ensures Framed(out)[k].last <==> |out| <= 3 * k + 3
  {
    assert out[3 * k..] == out[3 * k..|out|];
  }

  lemma FramedBytes(out: seq<byte>)
    ensures BytesOf(Framed(out)) == Chunks(out, WordCount(|out|))
    ensures Flatten(BytesOf(Framed(out))) == out
  {
    ChunksRoundTrip(out);
    assert BytesOf(Framed(out)) == Chunks(out, WordCount(|out|));
  }

  /** Words of the right sizes, chip select let go after the last word of the message only. */
  predicate WellFramed(words: seq<Word>, len: nat) {
    forall i :: 0 <= i < |words| ==>
      && words[i].last == (i + 1 == WordCount(len))
      && |words[i].bytes| == Covered(len, i + 1) - Covered(len, i)
  }

  /** What words of the right sizes carry, byte by byte. */
  lemma {:induction false} WordsCarry(words: seq<Word>, len: nat)
    requires WellFramed(words, len) && |words| <= WordCount(len)
    ensures var out := Flatten(BytesOf(words));
            && |out| == Covered(len, |words|)
            && forall i :: 0 <= i < |words| ==> words[i].bytes == out[Covered(len, i)..Covered(len, i + 1)]
  {
    if words != [] {
      hide Flatten, BytesOf;
      var n := |words| - 1;
      var init, w := words[..n], words[n];
      assert words == init + [w];
      WordsCarry(init, len);
      BytesOneMore(init, w);
      FlattenOneMore(BytesOf(init), w.bytes);
      var before := Flatten(BytesOf(init));
      forall i | 0 <= i < n ensures words[i].bytes == (before + w.bytes)[Covered(len, i)..Covered(len, i + 1)] {
        assert init[i].bytes == before[Covered(len, i)..Covered(len, i + 1)];
        assert Covered(len, i + 1) <= Covered(len, n);
      }
    }
  }

  lemma BytesOneMore(words: seq<Word>, w: Word)
    ensures BytesOf(words + [w]) == BytesOf(words) + [w.bytes]
  {
  }

  /** Words of the right sizes, as many as the message takes, are its framing. */
  lemma FramedAs(words: seq<Word>, len: nat)
    requires WellFramed(words, len) && |words| == WordCount(len)
    ensures var out := Flatten(BytesOf(words)); |out| == len && words == Framed(out)
  {
    WordsCarry(words, len);
    var out := Flatten(BytesOf(words));
    forall i | 0 <= i < |words| ensures words[i] == Framed(out)[i] {
      ChunkIsSlice(out, i);
      assert Covered(len, i) == 3 * i && Covered(len, i + 1) == 3 * i + |Chunk(out, i)|;
      assert words[i].bytes == Chunk(out, i);
    }
  }

  /** Finishing a word keeps the accounts of the wire and of the answers. */
  lemma OneMoreWord(slave: Slave, past: seq<byte>, sent: seq<Word>, wire: seq<byte>, answers: seq<seq<byte>>, w: Word)
    requires wire == past + Flatten(BytesOf(sent)) && answers == Answers(slave, past, BytesOf(sent))
    ensures wire + w.bytes == past + Flatten(BytesOf(sent + [w]))
    ensures answers + [Exchange(slave, wire, w.bytes)] == Answers(slave, past, BytesOf(sent + [w]))
  {
    assert BytesOf(sent + [w]) == BytesOf(sent) + [w.bytes];
    AnswersOneMore(slave, past, BytesOf(sent), w.bytes);
    FlattenOneMore(BytesOf(sent), w.bytes);
  }

  lemma AnswerIsShort(slave: Slave, past: seq<byte>, sent: seq<Word>, popped: seq<seq<byte>>, rx: seq<seq<byte>>)
    requires popped + rx == Answers(slave, past, BytesOf(sent)) && rx != []
    ensures |rx[0]| == |sent[|popped|].bytes|
  {
    assert rx[0] == (popped + rx)[|popped|];
  }

  /** Words that mean nothing, by the number of the access that reads them. */
  type Noise = nat -> bv32

  ghost predicate FromNoise(noise: Noise, b: byte) {
    exists at: nat :: b in Unpack(noise(at), 3)
  }

  lemma NoiseBytes(noise: Noise, at: nat, count: nat)
    requires count <= 3
    ensures forall i :: 0 <= i < count ==> FromNoise(noise, Unpack(noise(at), count)[i])
  {
    assert forall i :: 0 <= i < count ==> Unpack(noise(at), count)[i] in Unpack(noise(at), 3);
  }

  predicate Carries(data: bv32, c: seq<byte>) {
    1 <= |c| <= 3 && Unpack(data, |c|) == c
  }

  datatype Status = Status(txFull: bool, rxEmpty: bool, busy: bool)

  class Peripheral {
    const depth: nat     // words in the TX FIFO and in the RX FIFO
    const slave: Slave
    const plan: Plan     // what the hardware does before each access
    const noise: Noise   // what an access reads from an empty RX FIFO

    var tx: seq<Word>
    var shift: seq<Word>
    var rx: seq<seq<byte>>
    var wire: seq<byte>
    var patience: nat
    var clock: nat       // accesses so far

    // Since the last transfer began, or the oldest word that was unread then: the wire before
    // it, the words sent, written and read. Since the transfer began: the number of reads
    // that found the RX FIFO empty.
    ghost var past: seq<byte>
    ghost var sent: seq<Word>
    ghost var pushed: seq<Word>
    ghost var popped: seq<seq<byte>>
    ghost var emptyReads: nat

    ghost predicate Valid()
      reads this
      ensures Valid() ==> |pushed| == |tx| + |shift| + |rx| + |popped| && Hardware().Fits(Counts())
    {
      && 1 <= depth
      && |tx| <= depth && |rx| <= depth && |shift| <= 1
      && wire == past + Flatten(BytesOf(sent))
      && pushed == sent + shift + tx
      && popped + rx == Answers(slave, past, BytesOf(sent))
    }

    /** Nothing under way and nothing left to read. */
    ghost predicate Idle()
      reads this
    {
      Valid() && tx == [] && shift == [] && rx == []
    }

    constructor (depth: nat, slave: Slave, plan: Plan, noise: Noise)
      requires 1 <= depth
      ensures Idle() && wire == [] && clock == 0
      ensures this.depth == depth && this.slave == slave && this.plan == plan && this.noise == noise
    {
      this.depth, this.slave, this.plan, this.noise := depth, slave, plan, noise;
      tx, shift, rx, wire, patience, clock := [], [], [], [], 0, 0;
      past, sent, pushed, popped, emptyReads := [], [], [], [], 0;
    }

    ghost function Counts(): Fifos
      reads this
    {
      Fifos(|tx|, |shift|, |rx|, patience, clock)
    }

    ghost function Hardware(): Machine {
      Machine(depth, plan)
    }

    /** Whether the hardware can move. A finished word waits for room in the RX FIFO. */
    predicate Enabled()
      reads `tx, `shift, `rx
    {
      if shift == [] then tx != [] else |rx| < depth
    }

    method Step()
      requires Valid() && Enabled()
      modifies `tx, `shift, `rx, `wire, `sent
      ensures Valid() && Counts() == Hardware().Moved(old(Counts()), 1)
    {
      if shift == [] {
        shift, tx := [tx[0]], tx[1..];
      } else {
        Deliver();
      }
    }

    method Deliver()
      requires Valid() && shift != [] && |rx| < depth
      modifies `shift, `rx, `wire, `sent
      ensures Valid() && shift == [] && |rx| == old(|rx|) + 1
    {
      hide Flatten, Answers, BytesOf, Exchange;
      var w := shift[0];
      var answer := Exchange(slave, wire, w.bytes);
      OneMoreWord(slave, past, sent, wire, popped + rx, w);
      assert popped + (rx + [answer]) == (popped + rx) + [answer];
      assert sent + shift + tx == sent + [w] + [] + tx;
      wire, sent, rx, shift := wire + w.bytes, sent + [w], rx + [answer], [];
    }

    /** What is left alone while the hardware runs. */
    twostate predicate Kept()
      reads this
    {
      past == old(past) && pushed == old(pushed) && popped == old(popped) && emptyReads == old(emptyReads)
    }

    /** The hardware runs by its plan, but not for ever without taking a step it can take. */
    method Settle()
      requires Valid()
      modifies `tx, `shift, `rx, `wire, `sent, `patience, `clock
      ensures Valid() && Kept() && Counts() == Hardware().Settled(old(Counts()))
    {
      hide Flatten, Answers, BytesOf, Machine.Moved;
      var choice := plan(clock);
      clock := clock + 1;
      if Enabled() {
        if choice.steps == 0 && 0 < patience {
          patience := patience - 1;
        } else {
          Run(if choice.steps == 0 then 1 else choice.steps);
          patience := choice.patience;
        }
      }
    }

    /** So many steps, as long as there are steps to take. */
    method Run(most: nat)
      requires Valid()
      modifies `tx, `shift, `rx, `wire, `sent
      ensures Valid() && Kept() && Counts() == Hardware().Moved(old(Counts()), most)
    {
      hide Valid;
      var steps := most;
      while 0 < steps && Enabled()
        invariant Valid() && Kept() && 0 <= steps <= most
        invariant Hardware().Moved(Counts(), steps) == Hardware().Moved(old(Counts()), most)
      {
        Step();
        steps := steps - 1;
      }
    }

    method ReadStat() returns (s: Status)
      requires Valid()
      modifies this
      ensures Valid() && Kept() && Counts() == Hardware().Settled(old(Counts()))
      ensures s == Status(|tx| == depth, rx == [], tx != [] || shift != [])
    {
      Settle();
      s := Status(|tx| == depth, rx == [], tx != [] || shift != []);
    }

    /** Writes a word to TXHOLD or, for the last word of a message, to IO. */
    method Write(data: bv32, last: bool)
      requires Valid() && |tx| < depth && LegalTag(data)
      modifies this
      ensures Valid() && past == old(past) && popped == old(popped) && emptyReads == old(emptyReads)
      ensures pushed == old(pushed) + [Word(Payload(data), last)]
      ensures Counts() == Hardware().Written(old(Counts()))
    {
      hide Machine.Settled, Flatten, Answers, BytesOf;
      var choice := plan(clock);
      Settle();
      var w := Word(Payload(data), last);
      tx, pushed, patience := tx + [w], pushed + [w], choice.patience;
    }

    /** Reads IO: a word that carries the chunk c or, from an empty FIFO, one that means nothing. */
    method ReadIo() returns (data: bv32, ghost c: seq<byte>)
      requires Valid()
      modifies this
      ensures Valid() && past == old(past) && pushed == old(pushed)
      ensures Counts() == Hardware().Taken(old(Counts()))
      ensures emptyReads == old(emptyReads) + if Hardware().Settled(old(Counts())).rx == 0 then 1 else 0
      ensures if emptyReads == old(emptyReads)
              then popped == old(popped) + [c] && Carries(data, c)
                   && |popped| <= |pushed| && |c| == |pushed[|popped| - 1].bytes|
              else popped == old(popped) && data == noise(old(clock))
    {
      hide Machine.Settled, Flatten, Answers, BytesOf, RxWord, Unpack;
      var at, choice := clock, plan(clock);
      Settle();
      patience := choice.patience;
      if rx == [] {
        data, c, emptyReads := noise(at), [], emptyReads + 1;
      } else {
        var stale: bv32 := *;
        var answers := TakeFront();
        UnpackReceived(answers, stale);
        data, c := RxWord(answers, stale), answers;
      }
    }

    method TakeFront() returns (answers: seq<byte>)
      requires Valid() && rx != []
      modifies `rx, `popped
      ensures Valid() && popped == old(popped) + [answers] && |popped| <= |pushed|
      ensures 1 <= |answers| <= 3 && |answers| == |pushed[|popped| - 1].bytes|
    {
      AnswerIsShort(slave, past, sent, popped, rx);
      assert popped + rx == (popped + [rx[0]]) + rx[1..];
      answers, rx, popped := rx[0], rx[1..], popped + [rx[0]];
    }

    /** Every byte on the wire or on its way there. */
    ghost function Committed(): seq<byte>
      reads this
    {
      wire + Flatten(BytesOf(shift + tx))
    }

    /** Where a transfer starts to be accounted for; nothing happens in the hardware. Words
        whose answers have not been read count as written since. */
    ghost method Begin()
      requires Valid()
      modifies `past, `sent, `pushed, `popped, `emptyReads
      ensures Valid() && popped == [] && emptyReads == 0 && |pushed| == Counts().Words()
      ensures Committed() == past + Flatten(BytesOf(pushed))
      ensures Idle() ==> pushed == [] && past == wire
    {
      hide Flatten, Answers, BytesOf;
      var read, unread := sent[..|popped|], sent[|popped|..];
      BytesOfSplit(read, unread);
      AnswersSplit(slave, past, BytesOf(read), BytesOf(unread));
      FlattenSplit(BytesOf(read), BytesOf(unread));
      assert read + unread == sent && pushed == sent + (shift + tx);
      var base := past + Flatten(BytesOf(read));
      assert popped + rx == Answers(slave, past, BytesOf(read)) + Answers(slave, base, BytesOf(unread));
      assert rx == (popped + rx)[|popped|..];
      assert [] + rx == rx;
      assert past + (Flatten(BytesOf(read)) + Flatten(BytesOf(unread))) == base + Flatten(BytesOf(unread));
      FlattenNothing();
      past, sent, pushed, popped, emptyReads := past + Flatten(BytesOf(read)), unread, unread + (shift + tx), [], 0;
      BytesOfSplit(unread, shift + tx);
      FlattenSplit(BytesOf(unread), BytesOf(shift + tx));
    }
  }
}
