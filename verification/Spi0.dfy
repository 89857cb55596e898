/** Polled transfers on SPI0: the peripheral as the driver sees it through its CS and
    FIFO registers, and the four transfer functions of the driver. The peripheral runs on its
    own. Before every register access it takes as many steps as its plan says, and nothing is
    known of the plan, so a status word may describe any state the hardware could have
    reached. Line numbers are those of bcm2835.c. */
module Spi0 {
  import opened BitOrder
  import opened Wire
  import opened Fifo
  import opened SpiFlow

  /** The bits of the CS register that the driver polls. */
  datatype Status = Status(txd: bool, rxd: bool, done: bool)

  class Peripheral {
    const capacity: nat  // depth of the TX FIFO and of the RX FIFO
    const slave: Slave
    const plan: Plan     // what the hardware does before each access

    var active: bool     // the TA bit
    var tx: seq<byte>
    var shift: seq<byte> // the byte being clocked out, if any
    var rx: seq<byte>
    var wire: seq<byte>  // every byte ever clocked out

    // Fairness: a hardware step that stays possible is not put off for ever.
    var patience: nat
    var clock: nat       // accesses so far

    // The wire when the FIFOs were last cleared, and since then: what was clocked out,
    // what went into the TX FIFO, what came out of the RX FIFO.
    ghost var past: seq<byte>
    ghost var sent: seq<byte>
    ghost var pushed: seq<byte>
    ghost var popped: seq<byte>

    /** Bytes are conserved: what went in is on the wire or on its way there, and the answer
        to every byte on the wire has been read or waits in the RX FIFO. */
    ghost predicate Valid()
      reads this
      ensures Valid() ==> |pushed| == |tx| + |shift| + |rx| + |popped| && Hardware().Fits(Counts())
    {
      && 1 <= capacity
      && |tx| <= capacity && |rx| <= capacity && |shift| <= 1
      && (!active ==> shift == [])
      && wire == past + sent
      && pushed == sent + shift + tx
      && popped + rx == Exchange(slave, past, sent)
    }

    constructor (capacity: nat, slave: Slave, plan: Plan)
      requires 1 <= capacity
      ensures Valid() && !active && wire == [] && clock == 0
      ensures this.capacity == capacity && this.slave == slave && this.plan == plan
    {
      this.capacity, this.slave, this.plan := capacity, slave, plan;
      active, tx, shift, rx, wire, patience, clock := false, [], [], [], [], 0, 0;
      past, sent, pushed, popped := [], [], [], [];
    }

    ghost function Counts(): Fifos
      reads this
    {
      Fifos(|tx|, |shift|, |rx|, patience, clock)
    }

    ghost function Hardware(): Machine {
      Machine(capacity, plan)
    }

    /** Whether the hardware can move. With a byte to deliver and a full RX FIFO it stalls. */
    predicate Enabled()
      reads `active, `tx, `shift, `rx
    {
      active && if shift == [] then tx != [] else |rx| < capacity
    }

    method Step()
      requires Valid() && Enabled()
      modifies `tx, `shift, `rx, `wire, `sent
      ensures Valid() && Counts() == Hardware().Moved(old(Counts()), 1)
      ensures old(rx) <= rx
    {
      if shift == [] {
        shift, tx := [tx[0]], tx[1..];
      } else {
        Deliver();
      }
    }

    method Deliver()
      requires Valid() && active && shift != [] && |rx| < capacity
      modifies `shift, `rx, `wire, `sent
      ensures Valid() && shift == [] && old(rx) <= rx && |rx| == old(|rx|) + 1
    {
      hide Exchange;
      ExchangeOneMore(slave, past, sent, shift[0]);
      var answer := slave(wire, shift[0]);
      assert (popped + rx) + [answer] == popped + (rx + [answer]) && shift == [shift[0]];
      wire, sent, rx, shift := wire + shift, sent + shift, rx + [answer], [];
    }

    /** What is left alone while the hardware runs. */
    twostate predicate Kept()
      reads this
    {
      past == old(past) && pushed == old(pushed) && popped == old(popped) && old(rx) <= rx
    }

    /** The hardware runs by its plan, but not for ever without taking a step it can take. */
    method Settle()
      requires Valid() && active
      modifies `tx, `shift, `rx, `wire, `sent, `patience, `clock
      ensures Valid() && Kept() && Counts() == Hardware().Settled(old(Counts()))
    {
      hide Exchange, Machine.Moved;
      var choice := plan(clock);
      clock := clock + 1;
      if Enabled() {
        if choice.steps == 0 && 0 < patience {
          patience := patience - 1;
        } else {
          Run(if choice.steps == 0 then 1 else choice.steps);
          patience := choice.patience;
        }
      }
    }

    /** So many steps, as long as there are steps to take. */
    method Run(most: nat)
      requires Valid() && active
      modifies `tx, `shift, `rx, `wire, `sent
      ensures Valid() && Kept() && Counts() == Hardware().Moved(old(Counts()), most)
    {
      hide Valid;
      var steps := most;
      while 0 < steps && Enabled()
        invariant Valid() && Kept() && 0 <= steps <= most
        invariant Hardware().Moved(Counts(), steps) == Hardware().Moved(old(Counts()), most)
      {
        Step();
        steps := steps - 1;
      }
    }

    method ReadStatus() returns (s: Status)
      requires Valid() && active
      modifies this
      ensures Valid() && active && Kept() && Counts() == Hardware().Settled(old(Counts()))
      ensures s == Status(|tx| < capacity, rx != [], tx == [] && shift == [])
    {
      Settle();
      s := Status(|tx| < capacity, rx != [], active && tx == [] && shift == []);
    }

    /** Writing to a full FIFO would lose the byte: callers must have seen TXD. */
    method WriteFifo(b: byte)
      requires Valid() && active && |tx| < capacity
      modifies this
      ensures Valid() && active && past == old(past) && old(rx) <= rx
      ensures pushed == old(pushed) + [b] && popped == old(popped)
      ensures Counts() == Hardware().Written(old(Counts()))
    {
      hide Exchange, Machine.Settled;
      var choice := plan(clock);
      Settle();
      tx, pushed, patience := tx + [b], pushed + [b], choice.patience;
    }

    /** Reading from an empty FIFO gives nothing useful: callers must have seen RXD. */
    method ReadFifo() returns (b: byte)
      requires Valid() && active && rx != []
      modifies this
      ensures Valid() && active && past == old(past) && pushed == old(pushed)
      ensures popped == old(popped) + [b] && b == old(rx[0])
      ensures Counts() == Hardware().Taken(old(Counts()))
    {
      hide Exchange, Machine.Settled;
      var choice := plan(clock);
      Settle();
      b, rx, popped, patience := rx[0], rx[1..], popped + [rx[0]], choice.patience;
    }

    /** CS.CLEAR, as the driver uses it: between transfers. */
    method ClearFifos()
      requires Valid() && !active
      modifies `tx, `rx, `pushed, `popped, `past, `sent
      ensures Valid() && !active && wire == old(wire) && shift == []
      ensures tx == [] && rx == [] && pushed == [] && popped == [] && past == wire
    {
      tx, rx, pushed, popped, past, sent := [], [], [], [], wire, [];
    }

    method Activate()
      requires Valid() && !active
      modifies `active
      ensures Valid() && active
    {
      active := true;
    }

    /** Clearing TA with a byte in flight would cut it short: callers must have seen DONE. */
    method Deactivate()
      requires Valid() && shift == []
      modifies `active
      ensures Valid() && !active
    {
      active := false;
    }
  }

  /** When TX is empty and nothing is in flight, everything is on the wire and answered. */
  lemma NothingUnderWay(spi: Peripheral)
    requires spi.Valid() && spi.tx == [] && spi.shift == []
    ensures spi.wire == spi.past + spi.pushed
    ensures spi.popped + spi.rx == Exchange(spi.slave, spi.past, spi.pushed)
  {
    assert spi.sent == spi.pushed;
  }

  /** What a transfer was asked to do: the memory and the wire it found, where its buffers
      start, and how many bytes it moves. */
  datatype Job = Job(before: seq<byte>, past: seq<byte>, t: nat, r: nat, len: nat) {
    ghost predicate Fits() {
      t + len <= |before| && r + len <= |before|
    }

    /** Writing the reply can never reach a byte that still has to be sent. */
    predicate Apart(capacity: nat) {
      r <= t || t + len <= r || len <= capacity
    }

    /** Byte i of the message, fetched after `lead` bytes of the reply were stored. */
    function Fetched(reply: seq<byte>, lead: nat, i: nat): byte
      requires t + i < |before| && lead <= |reply|
    {
      if r <= t + i < r + lead then reply[t + i - r] else before[t + i]
    }

    /** The bytes that go out when so many bytes of the reply precede the fetch of each. */
    function Message(reply: seq<byte>, leads: seq<nat>): (out: seq<byte>)
      requires t + |leads| <= |before| && forall i :: 0 <= i < |leads| ==> leads[i] <= |reply|
      ensures |out| == |leads|
    {
      seq(|leads|, i requires 0 <= i < |leads| => Fetched(reply, leads[i], i))
    }
  }

  /** No byte is fetched before the reply to a byte after it is stored. */
  predicate Leading(leads: seq<nat>, received: nat) {
    forall i :: 0 <= i < |leads| ==> leads[i] <= i && leads[i] <= received
  }

  lemma MessageOneMore(job: Job, reply: seq<byte>, leads: seq<nat>, lead: nat)
    requires job.t + |leads| < |job.before| && Leading(leads, |reply|) && lead <= |reply|
    ensures job.Message(reply, leads + [lead]) == job.Message(reply, leads) + [job.Fetched(reply, lead, |leads|)]
  {
  }

  lemma MessageStays(job: Job, reply: seq<byte>, b: byte, leads: seq<nat>)
    requires job.t + |leads| <= |job.before| && Leading(leads, |reply|)
    ensures job.Message(reply + [b], leads) == job.Message(reply, leads)
  {
  }

  /** What is fetched from memory. */
  lemma FetchedFromMemory(job: Job, reply: seq<byte>, i: nat)
    requires job.r + |reply| <= |job.before| && job.t + i < |job.before|
    ensures Overlay(job.before, job.r, reply)[job.t + i] == job.Fetched(reply, |reply|, i)
  {
  }

  /** Buffers that cannot disturb each other: the message is what was in memory. */
  lemma MessageWhenApart(job: Job, reply: seq<byte>, leads: seq<nat>, capacity: nat)
    requires job.Fits() && |leads| <= job.len && Leading(leads, |reply|) && job.Apart(capacity)
    requires job.len <= capacity ==> forall i :: 0 <= i < |leads| ==> leads[i] == 0
    ensures job.Message(reply, leads) == job.before[job.t..job.t + |leads|]
  {
  }

  /** Where a byte that goes out comes from, in terms of memory before and after. */
  lemma MessageFrom(job: Job, reply: seq<byte>, leads: seq<nat>, after: seq<byte>)
    requires job.Fits() && |leads| == job.len == |reply| && Leading(leads, job.len)
    requires after == Overlay(job.before, job.r, reply)
    ensures var out := job.Message(reply, leads);
            forall i :: 0 <= i < job.len ==>
              out[i] == if job.r <= job.t + i < job.r + leads[i] then after[job.t + i] else job.before[job.t + i]
  {
  }

  /** The driver's transfer functions. Buffers are stretches of one memory, so that two
      of them may be the same or overlap, as C pointers can. */
  class Driver {
    const spi: Peripheral
    var bitOrder: bv8

    constructor (spi: Peripheral)
      ensures this.spi == spi && bitOrder == 1
    {
      this.spi, bitOrder := spi, MSB_FIRST;
    }

    method SetBitOrder(order: bv8)
      modifies this
      ensures bitOrder == order
    {
      bitOrder := order;
    }

    /** A transfer under way: what has been handed to the peripheral, and what has come back.
        A byte of the message that the reply has already run over goes out overwritten. */
    ghost predicate Exchanging(mem: array<byte>, f: byte -> byte, job: Job, leads: seq<nat>, txCnt: nat, rxCnt: nat)
      reads this, spi, mem
      ensures Exchanging(mem, f, job, leads, txCnt, rxCnt) ==>
                && spi.Valid() && spi.active && rxCnt <= txCnt <= job.len
                && |spi.pushed| == txCnt && |spi.popped| == rxCnt && |leads| == txCnt
    {
      && job.Fits() && spi.Valid() && spi.active && spi.past == job.past
      && rxCnt <= txCnt <= job.len && txCnt == |spi.pushed| && rxCnt == |spi.popped|
      && mem[..] == Overlay(job.before, job.r, Mapped(f, spi.popped))
      && (job.len <= spi.capacity && 0 < rxCnt ==> txCnt == job.len)
      && (job.len <= spi.capacity ==> forall i :: 0 <= i < |leads| ==> leads[i] == 0)
      && |leads| == txCnt && Leading(leads, rxCnt)
      && spi.pushed == Mapped(f, job.Message(Mapped(f, spi.popped), leads))
    }

    /** The counts of a transfer of n bytes. */
    ghost function FlowOf(n: nat, txCnt: nat, rxCnt: nat): Flow
      requires txCnt <= n && rxCnt <= n
      reads this, spi
    {
      Flow(spi.Counts(), n - txCnt, n - rxCnt, 0)
    }

    method Poll(mem: array<byte>, f: byte -> byte, ghost job: Job, ghost leads: seq<nat>, ghost txCnt: nat,
                ghost rxCnt: nat)
      returns (cs: Status)
      requires Exchanging(mem, f, job, leads, txCnt, rxCnt)
      modifies spi
      ensures Exchanging(mem, f, job, leads, txCnt, rxCnt)
      ensures cs == Status(|spi.tx| < spi.capacity, spi.rx != [], spi.tx == [] && spi.shift == [])
      ensures FlowOf(job.len, txCnt, rxCnt) == spi.Hardware().Waited(old(FlowOf(job.len, txCnt, rxCnt)))
    {
      hide Overlay, Exchange, Mapped, Machine.Settled;
      cs := spi.ReadStatus();
    }

    method PushOne(mem: array<byte>, f: byte -> byte, ghost job: Job, ghost leads: seq<nat>, t: nat, ghost rxCnt: nat,
                   txCnt: nat)
      requires Exchanging(mem, f, job, leads, txCnt, rxCnt) && t == job.t && txCnt < job.len
      requires |spi.tx| < spi.capacity
      modifies spi
      ensures Exchanging(mem, f, job, leads + [rxCnt], txCnt + 1, rxCnt)
      ensures FlowOf(job.len, txCnt + 1, rxCnt) == spi.Hardware().Pushed(old(FlowOf(job.len, txCnt, rxCnt)))
    {
      hide Overlay, Exchange, Mapped, Machine.Written;
      ghost var reply := Mapped(f, spi.popped);
      FetchedFromMemory(job, reply, txCnt);
      MessageOneMore(job, reply, leads, rxCnt);
      MappedOneMore(f, job.Message(reply, leads), mem[t + txCnt]);
      spi.WriteFifo(f(mem[t + txCnt]));
    }

    method PopOne(mem: array<byte>, f: byte -> byte, ghost job: Job, ghost leads: seq<nat>, r: nat, ghost txCnt: nat,
                  rxCnt: nat)
      requires Exchanging(mem, f, job, leads, txCnt, rxCnt) && r == job.r && rxCnt < txCnt
      requires job.len <= spi.capacity ==> txCnt == job.len
      requires spi.rx != []
      modifies spi, mem
      ensures Exchanging(mem, f, job, leads, txCnt, rxCnt + 1)
      ensures FlowOf(job.len, txCnt, rxCnt + 1) == spi.Hardware().Popped(old(FlowOf(job.len, txCnt, rxCnt)))
    {
      hide Overlay, Exchange, Mapped, Machine.Taken, Machine.Settled;
      ghost var reply := Mapped(f, spi.popped);
      var b := spi.ReadFifo();
      MappedOneMore(f, old(spi.popped), b);
      OverlayOneMore(job.before, r, reply, f(b));
      MessageStays(job, reply, f(b), leads);
      mem[r + rxCnt] := f(b);
      assert mem[..] == old(mem[..])[r + rxCnt := f(b)];
    }

    /** The inner loop of lines 754-758: hand over bytes while the TX FIFO has room. */
    method FillTx(mem: array<byte>, f: byte -> byte, ghost job: Job, ghost before: seq<nat>, t: nat, len: nat,
                  ghost rxCnt: nat, sent: nat)
      returns (txCnt: nat, ghost leads: seq<nat>)
      requires Exchanging(mem, f, job, before, sent, rxCnt) && t == job.t && len == job.len
      modifies spi
      ensures Exchanging(mem, f, job, leads, txCnt, rxCnt)
      ensures sent <= txCnt && (len <= spi.capacity ==> txCnt == len)
      ensures leads == before + Repeated(rxCnt, txCnt - sent)
      ensures FlowOf(len, txCnt, rxCnt) == spi.Hardware().Filled(spi.Hardware().Waited(old(FlowOf(len, sent, rxCnt))))
    {
      hide Exchanging, Peripheral.Valid, Machine.Waited, Machine.Pushed, Machine.Filled;
      txCnt, leads := sent, before;
      var cs := Poll(mem, f, job, leads, txCnt, rxCnt);
      while cs.txd && txCnt < len
        invariant Exchanging(mem, f, job, leads, txCnt, rxCnt)
        invariant sent <= txCnt && cs.txd == (|spi.tx| < spi.capacity)
        invariant leads == before + Repeated(rxCnt, txCnt - sent)
        invariant spi.Hardware().Filled(FlowOf(len, txCnt, rxCnt))
               == spi.Hardware().Filled(spi.Hardware().Waited(old(FlowOf(len, sent, rxCnt))))
        decreases len - txCnt
      {
        FillsOn(spi.Hardware(), FlowOf(len, txCnt, rxCnt));
        PushOne(mem, f, job, leads, t, rxCnt, txCnt);
        txCnt, leads := txCnt + 1, leads + [rxCnt];
        cs := Poll(mem, f, job, leads, txCnt, rxCnt);
      }
      FillsOn(spi.Hardware(), FlowOf(len, txCnt, rxCnt));
    }

    /** The inner loop of lines 760-764: take bytes while the RX FIFO has any. */
    method DrainRx(mem: array<byte>, f: byte -> byte, ghost job: Job, ghost leads: seq<nat>, r: nat, len: nat,
                   ghost txCnt: nat, received: nat)
      returns (rxCnt: nat)
      requires Exchanging(mem, f, job, leads, txCnt, received) && r == job.r && len == job.len
      requires len <= spi.capacity ==> txCnt == len
      modifies spi, mem
      ensures Exchanging(mem, f, job, leads, txCnt, rxCnt) && received <= rxCnt
      ensures FlowOf(len, txCnt, rxCnt) ==
                spi.Hardware().Drained(spi.Hardware().Waited(old(FlowOf(len, txCnt, received))))
    {
      hide Exchanging, Peripheral.Valid, Machine.Waited, Machine.Popped, Machine.Drained;
      rxCnt := received;
      var cs := Poll(mem, f, job, leads, txCnt, rxCnt);
      while cs.rxd && rxCnt < len
        invariant Exchanging(mem, f, job, leads, txCnt, rxCnt)
        invariant cs.rxd == (spi.rx != []) && received <= rxCnt
        invariant spi.Hardware().Drained(FlowOf(len, txCnt, rxCnt))
               == spi.Hardware().Drained(spi.Hardware().Waited(old(FlowOf(len, txCnt, received))))
        decreases len - rxCnt
      {
        DrainsOn(spi.Hardware(), FlowOf(len, txCnt, rxCnt));
        PopOne(mem, f, job, leads, r, txCnt, rxCnt);
        rxCnt := rxCnt + 1;
        cs := Poll(mem, f, job, leads, txCnt, rxCnt);
      }
      DrainsOn(spi.Hardware(), FlowOf(len, txCnt, rxCnt));
    }

    /** Wait for DONE. With room for every byte still in the pipeline the hardware cannot
        stall, so DONE comes. */
    method AwaitDone()
      requires spi.Valid() && spi.active && |spi.pushed| - |spi.popped| <= spi.capacity
      modifies spi
      ensures spi.Valid() && spi.active && spi.past == old(spi.past)
      ensures spi.pushed == old(spi.pushed) && spi.popped == old(spi.popped)
      ensures spi.tx == [] && spi.shift == [] && spi.wire == spi.past + spi.pushed
      ensures spi.popped + spi.rx == Exchange(spi.slave, spi.past, spi.pushed)
    {
      hide Peripheral.Valid, Machine.Settled;
      var cs := spi.ReadStatus();
      while !cs.done
        invariant spi.Valid() && spi.active && spi.past == old(spi.past)
        invariant spi.pushed == old(spi.pushed) && spi.popped == old(spi.popped)
        invariant cs.done == (spi.tx == [] && spi.shift == [])
        decreases spi.Counts().Work(), spi.patience
      {
        cs := spi.ReadStatus();
      }
      NothingUnderWay(spi);
    }

    /** Wait for TXD. At most one byte more than a FIFO holds is in the pipeline, so TX and RX
        cannot both be full while a byte is in flight: the hardware can move, and TXD comes. */
    method AwaitRoom()
      requires spi.Valid() && spi.active && |spi.pushed| - |spi.popped| <= spi.capacity + 1
      modifies spi
      ensures spi.Valid() && spi.active && spi.past == old(spi.past)
      ensures spi.pushed == old(spi.pushed) && spi.popped == old(spi.popped)
      ensures |spi.tx| < spi.capacity
    {
      hide Peripheral.Valid, Machine.Settled;
      var cs := spi.ReadStatus();
      while !cs.txd
        invariant spi.Valid() && spi.active && spi.past == old(spi.past)
        invariant spi.pushed == old(spi.pushed) && spi.popped == old(spi.popped)
        invariant cs.txd == (|spi.tx| < spi.capacity)
        decreases spi.Counts().Work(), spi.patience
      {
        cs := spi.ReadStatus();
      }
    }

    /** Lines 803-804 and 809-810: throw away whatever has been received. */
    method DiscardRx()
      requires spi.Valid() && spi.active
      modifies spi
      ensures spi.Valid() && spi.active && spi.past == old(spi.past)
      ensures spi.pushed == old(spi.pushed) && spi.rx == []
      ensures spi.Counts().Work() <= old(spi.Counts().Work())
      ensures old(spi.rx) == [] ==> spi.Hardware().Polled(old(spi.Counts()), spi.Counts())
    {
      hide Peripheral.Valid, Machine.Settled, Machine.Taken, Machine.Polled;
      ghost var h := spi.Counts();
      var cs := spi.ReadStatus();
      while cs.rxd
        invariant spi.Valid() && spi.active && spi.past == old(spi.past)
        invariant spi.pushed == old(spi.pushed) && cs.rxd == (spi.rx != [])
        invariant spi.Counts().Work() <= h.Work()
        invariant h.rx == 0 ==> spi.Hardware().Polled(h, spi.Counts())
        decreases spi.Counts().Work(), |spi.rx|
      {
        ghost var g := spi.Counts();
        var _ := spi.ReadFifo();
        cs := spi.ReadStatus();
        PolledFurther(spi.Hardware(), h, g, spi.Counts());
      }
    }

    /** bcm2835_spi_transfer: TransferNb's specification for a message of one byte. */
    method Transfer(value: byte) returns (ret: byte)
      requires spi.Valid() && !spi.active
      modifies spi
      ensures spi.Valid() && !spi.active
      ensures spi.wire == old(spi.wire) + Mapped(InOrder(bitOrder), [value])
      ensures [ret] == Reply(spi.slave, old(spi.wire), InOrder(bitOrder), [value])
      ensures spi.wire == old(spi.wire) + [if bitOrder == 0 then Reversed(value) else value]
      ensures ret == if bitOrder == 0 then Reversed(spi.slave(old(spi.wire), Reversed(value)))
                     else spi.slave(old(spi.wire), value)
    {
      CorrectOrderIs(bitOrder, value);
      CorrectOrderIs(bitOrder, spi.slave(spi.wire, CorrectOrder(bitOrder, value)));
      ReplyToOne(spi.slave, spi.wire, InOrder(bitOrder), value);
      var b := ExchangeByte(CorrectOrder(bitOrder, value));
      ret := CorrectOrder(bitOrder, b);
    }

    /** Lines 706-726 without the bit order. */
    method ExchangeByte(b: byte) returns (answer: byte)
      requires spi.Valid() && !spi.active
      modifies spi
      ensures spi.Valid() && !spi.active
      ensures spi.wire == old(spi.wire) + [b] && answer == spi.slave(old(spi.wire), b)
    {
      spi.ClearFifos();
      spi.Activate();
      AwaitRoom();
      spi.WriteFifo(b);
      AwaitDone();
      assert spi.pushed == [b] && spi.popped + spi.rx == spi.rx;
      assert spi.past + [b][..0] == spi.past;
      answer := spi.ReadFifo();
      assert spi.sent == spi.pushed;
      spi.Deactivate();
    }

    /** One round of lines 795-804. */
    method WriteOne(b: byte)
      requires spi.Valid() && spi.active && |spi.pushed| - |spi.popped| <= spi.capacity + 1
      modifies spi
      ensures spi.Valid() && spi.active && spi.past == old(spi.past)
      ensures spi.pushed == old(spi.pushed) + [b] && |spi.pushed| - |spi.popped| <= spi.capacity + 1
    {
      AwaitRoom();
      spi.WriteFifo(b);
      DiscardRx();
    }

    /** bcm2835_spi_writenb. */
    method WriteNb(mem: array<byte>, t: nat, len: nat)
      requires spi.Valid() && !spi.active && t + len <= mem.Length
      modifies spi
      ensures spi.Valid() && !spi.active
      ensures spi.wire == old(spi.wire) + Mapped(InOrder(bitOrder), mem[t..t + len])
      ensures |spi.wire| == old(|spi.wire|) + len && spi.wire[..old(|spi.wire|)] == old(spi.wire)
      ensures var message := mem[t..t + len];
              forall i {:trigger message[i]} :: 0 <= i < len ==>
                spi.wire[old(|spi.wire|) + i] == if bitOrder == 0 then Reversed(message[i]) else message[i]
    {
      hide Reversed, Exchange;
      var f := InOrder(bitOrder);
      spi.ClearFifos();
      spi.Activate();
      for i := 0 to len
        invariant spi.Valid() && spi.active && spi.past == old(spi.wire)
        invariant spi.pushed == Mapped(f, mem[t..t + i]) && |spi.pushed| - |spi.popped| <= spi.capacity + 1
      {
        WriteOne(f(mem[t + i]));
        assert mem[t..t + i + 1] == mem[t..t + i] + [mem[t + i]];
      }
      AwaitDoneDiscarding();
      spi.Deactivate();
      OnTheWire(bitOrder, old(spi.wire), mem[t..t + len], spi.wire);
    }

    /** Lines 808-811. */
    method AwaitDoneDiscarding()
      requires spi.Valid() && spi.active
      modifies spi
      ensures spi.Valid() && spi.active && spi.shift == []
      ensures spi.wire == old(spi.past + spi.pushed)
    {
      hide Peripheral.Valid, Machine.Settled, Machine.Polled;
      var cs := spi.ReadStatus();
      while !cs.done
        invariant spi.Valid() && spi.active && spi.past == old(spi.past)
        invariant spi.pushed == old(spi.pushed) && (cs.done ==> spi.tx == [] && spi.shift == [])
        invariant !cs.done ==> spi.Counts().Work() > 0
        decreases spi.Counts().Work(), |spi.rx|, spi.patience
      {
        ghost var h := spi.Counts();
        DiscardRx();
        DoneComesCloser(spi.Hardware(), h, spi.Counts());
        cs := spi.ReadStatus();
      }
      NothingUnderWay(spi);
    }

    /** bcm2835_spi_transfernb. It always returns. Byte i goes out as it is in memory once
        leads[i] bytes of the reply have been stored, which is what it was at the call unless
        the receive buffer starts inside the transmit buffer and the message outgrows the FIFO. */
    method TransferNb(mem: array<byte>, t: nat, r: nat, len: nat) returns (ghost out: seq<byte>, ghost leads: seq<nat>)
      requires spi.Valid() && !spi.active
      requires t + len <= mem.Length && r + len <= mem.Length
      modifies spi, mem
      ensures spi.Valid() && !spi.active
      ensures forall i :: 0 <= i < mem.Length && !(r <= i < r + len) ==> mem[i] == old(mem[i])
      ensures |out| == len && spi.wire == old(spi.wire) + Mapped(InOrder(bitOrder), out)
      ensures mem[r..r + len] == Reply(spi.slave, old(spi.wire), InOrder(bitOrder), out)
      ensures |spi.wire| == old(|spi.wire|) + len && spi.wire[..old(|spi.wire|)] == old(spi.wire)
      ensures forall i {:trigger out[i]} :: 0 <= i < len ==>
                spi.wire[old(|spi.wire|) + i] == if bitOrder == 0 then Reversed(out[i]) else out[i]
      ensures forall i :: r <= i < r + len ==>
                var k := old(|spi.wire|) + i - r;
                var answer := spi.slave(spi.wire[..k], spi.wire[k]);
                mem[i] == if bitOrder == 0 then Reversed(answer) else answer
      ensures |leads| == len && Leading(leads, len)
      ensures forall i :: 0 <= i < len ==>
                out[i] == if r <= t + i < r + leads[i] then mem[t + i] else old(mem[t + i])
      ensures r <= t || t + len <= r || len <= spi.capacity ==> out == old(mem[t..t + len])
      ensures LedBy(spi.Hardware(), old(Start(len, spi.patience, spi.clock)), len, leads)
    {
      hide Peripheral.Valid, Mapped, Reply, InOrder, LedBy, Leading, Reversed;
      ghost var job := Job(mem[..], spi.wire, t, r, len);
      out, leads := Perform(mem, InOrder(bitOrder), job, t, r, len);
      ByteByByte(mem, r, job.past, out);
    }

    /** Lines 745-771, for any correction f of the bytes. */
    method Perform(mem: array<byte>, f: byte -> byte, ghost job: Job, t: nat, r: nat, len: nat)
      returns (ghost out: seq<byte>, ghost leads: seq<nat>)
      requires spi.Valid() && !spi.active && job == Job(mem[..], spi.wire, t, r, len) && job.Fits()
      modifies spi, mem
      ensures spi.Valid() && !spi.active
      ensures forall i :: 0 <= i < mem.Length && !(r <= i < r + len) ==> mem[i] == old(mem[i])
      ensures |out| == len && spi.wire == job.past + Mapped(f, out)
      ensures mem[r..r + len] == Reply(spi.slave, job.past, f, out)
      ensures |leads| == len && Leading(leads, len)
      ensures forall i :: 0 <= i < len ==>
                out[i] == if r <= t + i < r + leads[i] then mem[t + i] else old(mem[t + i])
      ensures r <= t || t + len <= r || len <= spi.capacity ==> out == old(mem[t..t + len])
      ensures LedBy(spi.Hardware(), old(Start(len, spi.patience, spi.clock)), len, leads)
    {
      hide Exchanging, Peripheral.Valid, Overlay, Mapped, Exchange, Reply, LedBy, Leading;
      Begin(mem, f, job);
      leads := Pump(mem, f, job, t, r, len);
      Finish(mem, f, job, leads);
      out := Concluded(mem, f, job, leads);
      assert job.before[t..t + len] == old(mem[t..t + len]);
      spi.Deactivate();
    }

    /** The same on the wire and in memory, byte by byte. */
    lemma ByteByByte(mem: array<byte>, r: nat, past: seq<byte>, out: seq<byte>)
      requires r + |out| <= mem.Length && spi.wire == past + Mapped(InOrder(bitOrder), out)
      requires mem[r..r + |out|] == Reply(spi.slave, past, InOrder(bitOrder), out)
      ensures |spi.wire| == |past| + |out| && spi.wire[..|past|] == past
      ensures forall i {:trigger out[i]} :: 0 <= i < |out| ==>
                spi.wire[|past| + i] == if bitOrder == 0 then Reversed(out[i]) else out[i]
      ensures forall i :: r <= i < r + |out| ==>
                var k := |past| + i - r;
                var answer := spi.slave(spi.wire[..k], spi.wire[k]);
                mem[i] == if bitOrder == 0 then Reversed(answer) else answer
    {
      hide Mapped, InOrder, Reply;
      var buffer := mem[r..r + |out|];
      OnTheWire(bitOrder, past, out, spi.wire);
      InTheBuffer(spi.slave, bitOrder, past, out, spi.wire, buffer);
      forall i | r <= i < r + |out|
        ensures var k := |past| + i - r;
                var answer := spi.slave(spi.wire[..k], spi.wire[k]);
                mem[i] == if bitOrder == 0 then Reversed(answer) else answer
      {
        assert mem[i] == buffer[i - r];
      }
    }

    /** Lines 745-748. */
    method Begin(mem: array<byte>, f: byte -> byte, ghost job: Job)
      requires spi.Valid() && !spi.active && job.Fits() && job.before == mem[..] && job.past == spi.wire
      modifies spi
      ensures Exchanging(mem, f, job, [], 0, 0)
      ensures FlowOf(job.len, 0, 0) == old(Start(job.len, spi.patience, spi.clock))
    {
      hide Overlay, Mapped, Exchange;
      spi.ClearFifos();
      spi.Activate();
      NothingOverlaid(job.before, job.r, f);
      NothingFetched(job, f);
    }

    /** Lines 767-768. */
    method Finish(mem: array<byte>, f: byte -> byte, ghost job: Job, ghost leads: seq<nat>)
      requires Exchanging(mem, f, job, leads, job.len, job.len)
      modifies spi
      ensures Exchanging(mem, f, job, leads, job.len, job.len) && spi.tx == [] && spi.shift == []
    {
      hide Overlay, Mapped, Exchange, Leading, Job.Message;
      AwaitDone();
    }

    /** What a transfer has done once everything is sent and received. */
    lemma Concluded(mem: array<byte>, f: byte -> byte, job: Job, leads: seq<nat>) returns (out: seq<byte>)
      requires Exchanging(mem, f, job, leads, job.len, job.len) && spi.tx == [] && spi.shift == []
      ensures mem.Length == |job.before| && |out| == job.len && spi.wire == job.past + Mapped(f, out)
      ensures mem[job.r..job.r + job.len] == Reply(spi.slave, job.past, f, out)
      ensures |leads| == job.len && Leading(leads, job.len)
      ensures forall i :: 0 <= i < mem.Length && !(job.r <= i < job.r + job.len) ==> mem[i] == job.before[i]
      ensures forall i :: 0 <= i < job.len ==>
                out[i] == if job.r <= job.t + i < job.r + leads[i] then mem[job.t + i] else job.before[job.t + i]
      ensures job.Apart(spi.capacity) ==> out == job.before[job.t..job.t + job.len]
    {
      hide Overlay, Mapped, Exchange, Job.Fetched;
      var reply := Mapped(f, spi.popped);
      out := job.Message(reply, leads);
      NothingUnderWay(spi);
      assert spi.rx == [] && spi.popped + spi.rx == spi.popped;
      OverlayFrame(job.before, job.r, reply, mem[..]);
      OverlaySlice(job.before, job.r, reply);
      assert mem[job.r..job.r + job.len] == mem[..][job.r..job.r + job.len];
      MessageFrom(job, reply, leads, mem[..]);
      if job.Apart(spi.capacity) {
        MessageWhenApart(job, reply, leads, spi.capacity);
      }
    }

    /** Where TransferNb makes no promise about the message, there is hardware with which the
        wire does not carry it: with a device that always answers 1, and bytes that wait until
        TX is full, a message of zeros does not arrive. */
    method Overwritten(mem: array<byte>, t: nat, r: nat, len: nat)
      requires spi.Valid() && !spi.active && r + len <= mem.Length
      requires t < r < t + len && spi.capacity < len && bitOrder == MSB_FIRST
      requires spi.plan == WaitUntil(spi.clock + 1 + 2 * spi.capacity, spi.capacity)
      requires forall past, b :: spi.slave(past, b) == 1
      requires forall i :: t <= i < t + len ==> mem[i] == 0
      modifies spi, mem
      ensures spi.wire != old(spi.wire) + Mapped(InOrder(bitOrder), old(mem[t..t + len]))
    {
      hide Peripheral.Valid, Leads, Mapped, Reply, WaitUntil;
      ghost var i := if spi.capacity <= r - t then r - t else spi.capacity;
      ghost var past, message := spi.wire, mem[t..t + len];
      WaitingLeads(spi.Hardware(), len, spi.patience, spi.clock);
      ghost var out, leads := TransferNb(mem, t, r, len);
      RepliesOfOne(spi.slave, past, out, i);
      RepliesOfOne(spi.slave, past, out, t + i - r);
      RepliesOfOne(spi.slave, past, message, i);
      assert leads[i] >= spi.capacity;
      assert mem[t + i] == mem[r..r + len][t + i - r] == 1;
      assert message[i] == 0 && out[i] == 1;
      assert spi.wire[|past|..] == Mapped(InOrder(MSB_FIRST), out);
    }

    lemma RepliesOfOne(device: Slave, past: seq<byte>, out: seq<byte>, i: nat)
      requires (forall before, b :: device(before, b) == 1) && i < |out|
      ensures Reply(device, past, InOrder(MSB_FIRST), out)[i] == 1 && Mapped(InOrder(MSB_FIRST), out)[i] == out[i]
    {
    }

    /** bcm2835_spi_transfern: the reply replaces the message, as if the buffers were disjoint. */
    method TransferN(mem: array<byte>, buf: nat, len: nat)
      requires spi.Valid() && !spi.active && buf + len <= mem.Length
      modifies spi, mem
      ensures spi.Valid() && !spi.active
      ensures forall i :: 0 <= i < mem.Length && !(buf <= i < buf + len) ==> mem[i] == old(mem[i])
      ensures spi.wire == old(spi.wire) + Mapped(InOrder(bitOrder), old(mem[buf..buf + len]))
      ensures mem[buf..buf + len] == Reply(spi.slave, old(spi.wire), InOrder(bitOrder), old(mem[buf..buf + len]))
      ensures |spi.wire| == old(|spi.wire|) + len && spi.wire[..old(|spi.wire|)] == old(spi.wire)
      ensures var message := old(mem[buf..buf + len]);
              forall i {:trigger message[i]} :: 0 <= i < len ==>
                spi.wire[old(|spi.wire|) + i] == if bitOrder == 0 then Reversed(message[i]) else message[i]
      ensures forall i :: buf <= i < buf + len ==>
                var k := old(|spi.wire|) + i - buf;
                var answer := spi.slave(spi.wire[..k], spi.wire[k]);
                mem[i] == if bitOrder == 0 then Reversed(answer) else answer
    {
      hide Peripheral.Valid, Mapped, Reply, InOrder, LedBy, Leading, Reversed;
      ghost var out, leads := TransferNb(mem, buf, buf, len);
    }

    /** One round of lines 751-765. */
    method Round(mem: array<byte>, f: byte -> byte, ghost job: Job, ghost before: seq<nat>, t: nat, r: nat, len: nat,
                 sent: nat, received: nat)
      returns (txCnt: nat, rxCnt: nat, ghost leads: seq<nat>)
      requires Exchanging(mem, f, job, before, sent, received) && t == job.t && r == job.r && len == job.len
      modifies spi, mem
      ensures Exchanging(mem, f, job, leads, txCnt, rxCnt)
      ensures FlowOf(len, txCnt, rxCnt) == Turn(spi.Hardware(), old(FlowOf(len, sent, received)))
      ensures sent <= txCnt && leads == before + Repeated(received, txCnt - sent)
    {
      hide Exchanging, Peripheral.Valid, Machine.Waited, Machine.Filled, Machine.Drained;
      txCnt, leads := FillTx(mem, f, job, before, t, len, received, sent);
      rxCnt := DrainRx(mem, f, job, leads, r, len, txCnt, received);
    }

    /** The outer loop of lines 751-765. */
    method Pump(mem: array<byte>, f: byte -> byte, ghost job: Job, t: nat, r: nat, len: nat)
      returns (ghost leads: seq<nat>)
      requires Exchanging(mem, f, job, [], 0, 0) && t == job.t && r == job.r && len == job.len
      modifies spi, mem
      ensures Exchanging(mem, f, job, leads, len, len)
      ensures LedBy(spi.Hardware(), old(FlowOf(len, 0, 0)), len, leads)
    {
      hide Exchanging, Peripheral.Valid, Turn, Leading, Ongoing;
      ghost var start := FlowOf(len, 0, 0);
      var txCnt: nat, rxCnt: nat := 0, 0;
      leads := [];
      Balances(mem, f, job, leads, 0, 0);
      LeadsStart(spi.Hardware(), start, len);
      while txCnt < len || rxCnt < len
        invariant Exchanging(mem, f, job, leads, txCnt, rxCnt)
        invariant Ongoing(spi.Hardware(), start, FlowOf(len, txCnt, rxCnt), len, leads)
        decreases len - txCnt, spi.Counts().Work(), len - rxCnt, spi.patience
      {
        LeadsOn(spi.Hardware(), start, FlowOf(len, txCnt, rxCnt), len, leads);
        txCnt, rxCnt, leads := Round(mem, f, job, leads, t, r, len, txCnt, rxCnt);
      }
      LeadsEnd(spi.Hardware(), start, FlowOf(len, txCnt, rxCnt), len, leads);
    }

    lemma Balances(mem: array<byte>, f: byte -> byte, job: Job, leads: seq<nat>, txCnt: nat, rxCnt: nat)
      requires Exchanging(mem, f, job, leads, txCnt, rxCnt)
      ensures Underway(spi.Hardware(), FlowOf(job.len, txCnt, rxCnt))
    {
    }
  }

  lemma NothingFetched(job: Job, f: byte -> byte)
    requires job.t <= |job.before|
    ensures Mapped(f, job.Message(Mapped(f, []), [])) == []
  {
  }
}
