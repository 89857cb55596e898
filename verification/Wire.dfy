/** Bytes on a serial wire: the byte-by-byte exchange that every SPI transfer has to amount
    to, and the sequence operations the proofs share. */
module Wire {
  import opened BitOrder

  /** The device at the other end: its answer to a byte, given every byte it got before. */
  type Slave = (seq<byte>, byte) -> byte

  /** The reference: bytes exchanged one at a time with nothing in between. */
  function Exchange(slave: Slave, past: seq<byte>, out: seq<byte>): (answers: seq<byte>)
    ensures |answers| == |out|
  {
    seq(|out|, i requires 0 <= i < |out| => slave(past + out[..i], out[i]))
  }

  /** The answer to a byte depends on the bytes before it and on nothing else. */
  lemma ExchangeAt(slave: Slave, past: seq<byte>, out: seq<byte>, i: nat)
    requires i < |out|
    ensures Exchange(slave, past, out)[i] == slave(past + out[..i], out[i])
  {
  }

  function Mapped(f: byte -> byte, s: seq<byte>): (m: seq<byte>)
    ensures |m| == |s|
  {
    seq(|s|, i requires 0 <= i < |s| => f(s[i]))
  }

  function InOrder(order: bv8): byte -> byte {
    b => CorrectOrder(order, b)
  }

  /** What a transfer of out has to leave in the receive buffer. */
  function Reply(slave: Slave, past: seq<byte>, f: byte -> byte, out: seq<byte>): (answers: seq<byte>)
    ensures |answers| == |out|
  {
    Mapped(f, Exchange(slave, past, Mapped(f, out)))
  }

  /** What goes over the wire, byte by byte: with order 0 the bytes of the message reversed. */
  lemma OnTheWire(order: bv8, past: seq<byte>, out: seq<byte>, wire: seq<byte>)
    requires wire == past + Mapped(InOrder(order), out)
    ensures |wire| == |past| + |out| && wire[..|past|] == past
    ensures forall i {:trigger out[i]} :: 0 <= i < |out| ==>
              wire[|past| + i] == if order == 0 then Reversed(out[i]) else out[i]
  {
    forall i | 0 <= i < |out|
      ensures wire[|past| + i] == if order == 0 then Reversed(out[i]) else out[i]
    {
      CorrectOrderIs(order, out[i]);
    }
  }

  /** What comes back, byte by byte: the device's answers to the bytes on the wire, with order 0
      reversed. */
  lemma InTheBuffer(slave: Slave, order: bv8, past: seq<byte>, out: seq<byte>, wire: seq<byte>, buffer: seq<byte>)
    requires wire == past + Mapped(InOrder(order), out) && buffer == Reply(slave, past, InOrder(order), out)
    ensures |wire| == |past| + |out| && |buffer| == |out|
    ensures forall i :: 0 <= i < |out| ==>
              var k := |past| + i;
              var answer := slave(wire[..k], wire[k]);
              buffer[i] == if order == 0 then Reversed(answer) else answer
  {
    var sent := Mapped(InOrder(order), out);
    forall i | 0 <= i < |out|
      ensures var k := |past| + i;
              var answer := slave(wire[..k], wire[k]);
              buffer[i] == if order == 0 then Reversed(answer) else answer
    {
      ExchangeAt(slave, past, sent, i);
      assert wire[..|past| + i] == past + sent[..i] && wire[|past| + i] == sent[i];
      CorrectOrderIs(order, slave(wire[..|past| + i], wire[|past| + i]));
    }
  }

  lemma ReplyToOne(slave: Slave, past: seq<byte>, f: byte -> byte, b: byte)
    ensures Mapped(f, [b]) == [f(b)]
    ensures Reply(slave, past, f, [b]) == [f(slave(past, f(b)))]
  {
    assert past + [f(b)][..0] == past;
  }

  /** before with s written over it from index r on. */
  function Overlay(before: seq<byte>, r: nat, s: seq<byte>): (after: seq<byte>)
    requires r + |s| <= |before|
    ensures |after| == |before|
  {
    seq(|before|, i requires 0 <= i < |before| => if r <= i < r + |s| then s[i - r] else before[i])
  }

  lemma ExchangeOneMore(slave: Slave, past: seq<byte>, out: seq<byte>, b: byte)
    ensures Exchange(slave, past, out + [b]) == Exchange(slave, past, out) + [slave(past + out, b)]
  {
    var more := out + [b];
    assert forall i :: 0 <= i < |out| ==> more[..i] == out[..i];
    assert more[..|out|] == out;
  }

  lemma ExchangeSplits(slave: Slave, past: seq<byte>, a: seq<byte>, b: seq<byte>)
    ensures Exchange(slave, past, a + b) == Exchange(slave, past, a) + Exchange(slave, past + a, b)
  {
    forall i | 0 <= i < |a + b|
      ensures past + (a + b)[..i] == if i < |a| then past + a[..i] else past + a + b[..i - |a|]
    {
      if |a| <= i {
        assert (a + b)[..i] == a + b[..i - |a|];
      } else {
        assert (a + b)[..i] == a[..i];
      }
    }
  }

  /** One long transfer is two shorter ones, whatever the slave does. */
  lemma ReplySplits(slave: Slave, past: seq<byte>, f: byte -> byte, a: seq<byte>, b: seq<byte>)
    ensures Reply(slave, past, f, a + b) == Reply(slave, past, f, a) + Reply(slave, past + Mapped(f, a), f, b)
  {
    assert Mapped(f, a + b) == Mapped(f, a) + Mapped(f, b);
    ExchangeSplits(slave, past, Mapped(f, a), Mapped(f, b));
  }

  /** A device that echoes gives the buffer back unchanged in either bit order. */
  lemma LoopbackIsIdentity(past: seq<byte>, order: bv8, out: seq<byte>)
    ensures Reply((_, b) => b, past, InOrder(order), out) == out
  {
    forall i | 0 <= i < |out|
      ensures Reply((_, b) => b, past, InOrder(order), out)[i] == out[i]
    {
      CorrectOrderInvolutive(order, out[i]);
    }
  }

  lemma OverlayOutside(before: seq<byte>, r: nat, s: seq<byte>, at: nat, n: nat)
    requires r + |s| <= |before| && at + n <= |before| && (at + n <= r || r + |s| <= at || s == [])
    ensures Overlay(before, r, s)[at..at + n] == before[at..at + n]
  {
    var a, b := Overlay(before, r, s)[at..at + n], before[at..at + n];
    assert forall i :: 0 <= i < n ==> a[i] == b[i];
  }

  lemma OverlayOneMore(before: seq<byte>, r: nat, s: seq<byte>, b: byte)
    requires r + |s| < |before|
    ensures Overlay(before, r, s)[r + |s| := b] == Overlay(before, r, s + [b])
  {
    var x, y := Overlay(before, r, s)[r + |s| := b], Overlay(before, r, s + [b]);
    assert forall i :: 0 <= i < |before| ==> x[i] == y[i];
  }

  lemma MappedOneMore(f: byte -> byte, s: seq<byte>, b: byte)
    ensures Mapped(f, s + [b]) == Mapped(f, s) + [f(b)]
  {
  }

  lemma NothingOverlaid(before: seq<byte>, r: nat, f: byte -> byte)
    requires r <= |before|
    ensures Mapped(f, []) == [] && Overlay(before, r, Mapped(f, [])) == before
  {
  }

  lemma OverlayFrame(before: seq<byte>, r: nat, s: seq<byte>, after: seq<byte>)
    requires r + |s| <= |before| && after == Overlay(before, r, s)
    ensures |after| == |before|
    ensures forall i :: 0 <= i < |before| && !(r <= i < r + |s|) ==> after[i] == before[i]
  {
  }

  lemma OverlaySlice(before: seq<byte>, r: nat, s: seq<byte>)
    requires r + |s| <= |before|
    ensures Overlay(before, r, s)[r..r + |s|] == s
  {
    var a := Overlay(before, r, s)[r..r + |s|];
    assert forall i :: 0 <= i < |s| ==> a[i] == s[i];
  }

  lemma OverlayGrows(before: seq<byte>, r: nat, s: seq<byte>, more: seq<byte>)
    requires r + |s| + |more| <= |before|
    ensures Overlay(Overlay(before, r, s), r + |s|, more) == Overlay(before, r, s + more)
  {
  }

  function Flatten(chunks: seq<seq<byte>>): seq<byte> {
    if chunks == [] then [] else Flatten(chunks[..|chunks| - 1]) + chunks[|chunks| - 1]
  }

  lemma FlattenNothing()
    ensures Flatten([]) == []
  {
  }

  lemma FlattenOneMore(chunks: seq<seq<byte>>, c: seq<byte>)
    ensures Flatten(chunks + [c]) == Flatten(chunks) + c
  {
    assert (chunks + [c])[..|chunks|] == chunks;
  }

  /** The slave's answers when the message arrives in chunks. */
  function Answers(slave: Slave, past: seq<byte>, chunks: seq<seq<byte>>): (answers: seq<seq<byte>>)
    ensures |answers| == |chunks|
  {
    seq(|chunks|, i requires 0 <= i < |chunks| => Exchange(slave, past + Flatten(chunks[..i]), chunks[i]))
  }

  lemma AnswersOneMore(slave: Slave, past: seq<byte>, chunks: seq<seq<byte>>, c: seq<byte>)
    ensures Answers(slave, past, chunks + [c])
         == Answers(slave, past, chunks) + [Exchange(slave, past + Flatten(chunks), c)]
  {
    var more := chunks + [c];
    assert forall i :: 0 <= i < |chunks| ==> more[..i] == chunks[..i];
    assert more[..|chunks|] == chunks;
  }

  /** Cutting a message into chunks does not change the answers. */
  lemma {:induction false} AnswersFlatten(slave: Slave, past: seq<byte>, chunks: seq<seq<byte>>)
    ensures Flatten(Answers(slave, past, chunks)) == Exchange(slave, past, Flatten(chunks))
  {
    if chunks != [] {
      var init, c := chunks[..|chunks| - 1], chunks[|chunks| - 1];
      assert chunks == init + [c];
      AnswersOneMore(slave, past, init, c);
      AnswersFlatten(slave, past, init);
      FlattenOneMore(Answers(slave, past, init), Exchange(slave, past + Flatten(init), c));
      ExchangeSplits(slave, past, Flatten(init), c);
    }
  }

  lemma {:induction false} FlattenSplit(a: seq<seq<byte>>, b: seq<seq<byte>>)
    ensures Flatten(a + b) == Flatten(a) + Flatten(b)
  {
    if b == [] {
      assert a + b == a;
    } else {
      hide Flatten;
      var init, c := b[..|b| - 1], b[|b| - 1];
      FlattenSplit(a, init);
      FlattenOneMore(init, c);
      FlattenOneMore(a + init, c);
      assert b == init + [c] && a + b == (a + init) + [c];
    }
  }

  /** Answers to a first and a second part. */
  lemma AnswersSplit(slave: Slave, past: seq<byte>, a: seq<seq<byte>>, b: seq<seq<byte>>)
    ensures Answers(slave, past, a + b) == Answers(slave, past, a) + Answers(slave, past + Flatten(a), b)
  {
    hide Flatten, Exchange;
    forall i | 0 <= i < |a + b|
      ensures past + Flatten((a + b)[..i]) ==
                if i < |a| then past + Flatten(a[..i]) else past + Flatten(a) + Flatten(b[..i - |a|])
    {
      if |a| <= i {
        assert (a + b)[..i] == a + b[..i - |a|];
        FlattenSplit(a, b[..i - |a|]);
      } else {
        assert (a + b)[..i] == a[..i];
      }
    }
  }
}
