/** The I2C (BSC) transfers against a device and a status register that may do anything:
    flags come and go, bytes move at any time, DONE may never be raised. Line numbers are
    those of bcm2835.c. */
module I2c {
  import opened Options
  import opened Arithmetic
  import opened BitOrder

  const FIFO_SIZE: nat := 16

  /** The bits of the S register. */
  datatype Status = Status(ta: bool, done: bool, txd: bool, rxd: bool, err: bool, clkt: bool)

  /** What the driver writes to the other registers, in order. */
  datatype Access =
    | ClearFifo | ClearStatus | SetLength(n: nat) | Enable | Start | StartRead
    | Data(b: byte) | DoneToControl | DoneToStatus

  datatype Reason = Ok | Nack | ClockTimeout | MissingData | Timeout

  function Sending(s: seq<byte>): (w: seq<Access>)
    ensures |w| == |s|
  {
    seq(|s|, i requires 0 <= i < |s| => Data(s[i]))
  }

  lemma SendingSplits(s: seq<byte>, i: nat, j: nat, k: nat)
    requires i <= j <= k <= |s|
    ensures Sending(s[i..k]) == Sending(s[i..j]) + Sending(s[j..k])
  {
  }

  /** How many status reads saw DONE clear. */
  function DoneClear(seen: seq<Status>): (n: nat)
    ensures n <= |seen|
  {
    if seen == [] then 0
    else DoneClear(seen[..|seen| - 1]) + if seen[|seen| - 1].done then 0 else 1
  }

  lemma DoneClearOneMore(seen: seq<Status>, s: Status)
    ensures DoneClear(seen + [s]) == DoneClear(seen) + if s.done then 0 else 1
  {
    assert (seen + [s])[..|seen|] == seen;
  }

  /** The status words among the first i that saw DONE clear. */
  function ClearAmong(seen: seq<Status>): set<nat> {
    set k: nat | k < |seen| && !seen[k].done
  }

  lemma {:induction false} DoneClearCounts(seen: seq<Status>)
    ensures DoneClear(seen) == |ClearAmong(seen)|
  {
    if seen != [] {
      var n := |seen| - 1;
      var init := seen[..n];
      DoneClearCounts(init);
      if seen[n].done {
        assert ClearAmong(seen) == ClearAmong(init);
      } else {
        assert ClearAmong(seen) == ClearAmong(init) + {n};
      }
    }
  }

  class Bsc {
    var tx: seq<byte>
    var rx: seq<byte>

    // Everything since the FIFOs were last cleared: bytes written to the FIFO, bytes the
    // device got, bytes the device delivered, bytes read from the FIFO.
    ghost var pushed: seq<byte>
    ghost var sent: seq<byte>
    ghost var delivered: seq<byte>
    ghost var popped: seq<byte>

    // Every status word read and every other register write.
    ghost var seen: seq<Status>
    ghost var log: seq<Access>

    ghost predicate Valid()
      reads this
    {
      && |tx| <= FIFO_SIZE && |rx| <= FIFO_SIZE
      && pushed == sent + tx && delivered == popped + rx
    }

    constructor ()
      ensures Valid() && seen == [] && log == []
    {
      tx, rx, pushed, sent, delivered, popped, seen, log := [], [], [], [], [], [], [], [];
    }

    /** The device takes bytes from the TX FIFO and delivers bytes of its own. */
    method Settle()
      requires Valid()
      modifies `tx, `rx, `sent, `delivered
      ensures Valid() && |tx| <= old(|tx|) && old(rx) <= rx
    {
      var n :| 0 <= n <= |tx|;
      sent, tx := sent + tx[..n], tx[n..];
      var more: seq<byte> :| |rx + more| <= FIFO_SIZE;
      assert delivered + more == popped + (rx + more);
      delivered, rx := delivered + more, rx + more;
    }

    /** TXD promises room and RXD promises a byte; nothing else can be relied on. */
    method ReadStatus() returns (s: Status)
      requires Valid()
      modifies `tx, `rx, `sent, `delivered, `seen
      ensures Valid() && |tx| <= old(|tx|) && old(rx) <= rx
      ensures seen == old(seen) + [s] && DoneClear(seen) == DoneClear(old(seen)) + if s.done then 0 else 1
      ensures (s.txd ==> |tx| < FIFO_SIZE) && (s.rxd ==> rx != [])
    {
      Settle();
      var ta, done, txd, rxd, err, clkt: bool := *, *, *, *, *, *;
      s := Status(ta, done, txd && |tx| < FIFO_SIZE, rxd && rx != [], err, clkt);
      DoneClearOneMore(seen, s);
      seen := seen + [s];
    }

    method Push(b: byte)
      requires Valid() && |tx| < FIFO_SIZE
      modifies `tx, `rx, `sent, `delivered, `pushed, `log
      ensures Valid() && |tx| <= old(|tx|) + 1
      ensures pushed == old(pushed) + [b] && log == old(log) + [Data(b)]
    {
      Settle();
      assert pushed + [b] == sent + (tx + [b]);
      tx, pushed, log := tx + [b], pushed + [b], log + [Data(b)];
    }

    method Pop() returns (b: byte)
      requires Valid() && rx != []
      modifies `tx, `rx, `sent, `delivered, `popped
      ensures Valid() && |tx| <= old(|tx|) && popped == old(popped) + [b]
    {
      Settle();
      assert popped + rx == (popped + [rx[0]]) + rx[1..];
      b, popped, rx := rx[0], popped + [rx[0]], rx[1..];
    }

    method Clear()
      requires Valid()
      modifies `tx, `rx, `pushed, `sent, `delivered, `popped, `log
      ensures Valid() && tx == [] && pushed == [] && popped == []
      ensures log == old(log) + [ClearFifo]
    {
      tx, rx, pushed, sent, delivered, popped := [], [], [], [], [], [];
      log := log + [ClearFifo];
    }

    /** A write to the control, length or status register. */
    method Control(a: Access)
      requires Valid()
      modifies `log
      ensures Valid() && log == old(log) + [a]
    {
      log := log + [a];
    }
  }

  /** The reason a transfer reports, given the status words it looked at last: first ERR,
      then CLKT, then whether all bytes were moved. */
  predicate Decided(reason: Reason, seen: seq<Status>, complete: bool) {
    match reason
    case Nack => |seen| >= 1 && seen[|seen| - 1].err
    case ClockTimeout => |seen| >= 2 && !seen[|seen| - 2].err && seen[|seen| - 1].clkt
    case Ok => |seen| >= 2 && !seen[|seen| - 2].err && !seen[|seen| - 1].clkt && complete
    case MissingData => |seen| >= 2 && !seen[|seen| - 2].err && !seen[|seen| - 1].clkt && !complete
    case Timeout => false
  }

  /** Lines 1304-1318, 1376-1391, 1467-1482 and 1571-1586. */
  method Decide(bsc: Bsc, remaining: nat) returns (reason: Reason)
    requires bsc.Valid()
    modifies bsc`tx, bsc`rx, bsc`sent, bsc`delivered, bsc`seen
    ensures bsc.Valid() && Decided(reason, bsc.seen, remaining == 0)
    ensures |bsc.seen| == old(|bsc.seen|) + if reason == Nack then 1 else 2
    ensures old(bsc.seen) <= bsc.seen && DoneClear(old(bsc.seen)) <= DoneClear(bsc.seen)
  {
    var s := bsc.ReadStatus();
    if s.err {
      return Nack;
    }
    s := bsc.ReadStatus();
    reason := if s.clkt then ClockTimeout else if remaining > 0 then MissingData else Ok;
  }

  /** What a reason says of the two status words read for it, the first at number `at`. */
  lemma DecidedMeans(reason: Reason, seen: seq<Status>, complete: bool)
    requires Decided(reason, seen, complete)
    ensures reason != Timeout
    ensures var at := |seen| - if reason == Nack then 1 else 2;
            && 0 <= at && (reason == Nack <==> seen[at].err)
            && (reason == ClockTimeout <==> !seen[at].err && seen[at + 1].clkt)
            && (reason == MissingData <==> !seen[at].err && !seen[at + 1].clkt && !complete)
            && (reason == Ok <==> !seen[at].err && !seen[at + 1].clkt && complete)
  {
  }

  // ----- writing -----

  /** `--Failsafe` on an unsigned long. */
  function Decremented(failsafe: nat): nat
    requires failsafe < WORD64
  {
    if failsafe == 0 then WORD64 - 1 else failsafe - 1
  }

  /** The initial count, multiplied in 32 bits. */
  function Failsafe(len: nat): (count: nat)
    ensures count < WORD32
  {
    len * 1000 % WORD32
  }

  /** Decrements until a count reaches zero: zero itself first wraps around. */
  function Fuel(failsafe: nat): nat {
    if failsafe == 0 then WORD64 else failsafe
  }

  /** The count stands for a thousand polls per byte exactly up to 4294967 bytes, or when the
      product is a multiple of 2^32 and the count starts by wrapping. */
  lemma FuelForLength(len: nat)
    requires len < WORD32
    ensures Fuel(Failsafe(len)) >= 1000 * len <==> len <= 4294967 || len % 0x2000_0000 == 0
    ensures Fuel(Failsafe(len)) >= 999 * len <==> len <= 4294967 || len % 0x2000_0000 == 0
  {
    var wraps := len * 1000 / WORD32;
    assert len * 1000 == wraps * WORD32 + Failsafe(len);
    if wraps > 0 {
      ProductWraps(len, wraps);
    }
  }

  /** The product is a multiple of 2^32 exactly if the length is one of 2^29, 125 being odd. */
  lemma ProductWraps(len: nat, wraps: nat)
    requires len * 1000 == wraps * WORD32 + Failsafe(len)
    ensures Failsafe(len) == 0 <==> len % 0x2000_0000 == 0
  {
    hide Failsafe;
    if Failsafe(len) == 0 {
      DividesThrough(len, wraps);
    }
    if len % 0x2000_0000 == 0 {
      var k := len / 0x2000_0000;
      assert Failsafe(len) == (k * 125 - wraps) * WORD32;
    }
  }

  /** 115964117 is the inverse of 125 modulo 2^29. */
  lemma DividesThrough(len: nat, wraps: nat)
    requires len * 1000 == wraps * WORD32
    ensures len % 0x2000_0000 == 0
  {
    var p: int := wraps * 115964117 - 27 * len;
    var scaled := wraps * 0x2000_0000;
    assert scaled == 125 * len;
    assert p * 0x2000_0000 == scaled * 115964117 - 27 * 0x2000_0000 * len;
    assert p * 0x2000_0000 == len;
  }

  /** One byte more and the driver gives up after 704 decrements instead of four billion. */
  lemma FailsafeOverflows()
    ensures Fuel(Failsafe(4294968)) == 704
  {
  }

  function FirstFill(len: nat): nat {
    if len < FIFO_SIZE then len else FIFO_SIZE
  }

  /** The register writes of a write transfer that got i bytes into the FIFO. */
  function WriteProgram(data: seq<byte>, i: nat): seq<Access>
    requires FirstFill(|data|) <= i <= |data|
  {
    [ClearFifo, ClearStatus, SetLength(|data|)] + Sending(data[..FirstFill(|data|)]) + [Start] +
    Sending(data[FirstFill(|data|)..i])
  }

  /** bcm2835_i2c_write. It returns whatever the device does. waits counts the outer polls
      that saw DONE clear; every one of them and every refilled byte costs one decrement. */
  method Write(bsc: Bsc, buf: array<byte>, len: nat) returns (reason: Reason, ghost waits: nat)
    requires bsc.Valid() && len <= buf.Length && len < WORD32
    modifies bsc
    ensures bsc.Valid()
    ensures FirstFill(len) <= |bsc.pushed| <= len && bsc.pushed == buf[..|bsc.pushed|]
    ensures bsc.log == old(bsc.log) + WriteProgram(buf[..len], |bsc.pushed|) + [DoneToControl]
    ensures reason == Timeout <==> waits + |bsc.pushed| - FirstFill(len) >= Fuel(Failsafe(len))
    ensures reason == Timeout && (len <= 4294967 || len % 0x2000_0000 == 0) ==> waits >= 999 * len
    ensures reason != Timeout ==>
              && Decided(reason, bsc.seen, |bsc.pushed| == len)
              && var guard := |bsc.seen| - if reason == Nack then 2 else 3;
                 guard >= 0 && bsc.seen[guard].done
    ensures waits + DoneClear(old(bsc.seen)) <= DoneClear(bsc.seen)
    ensures reason == Timeout <==>
              var count := len * 1000 % 0x1_0000_0000;
              waits + |bsc.pushed| - (if len < 16 then len else 16)
                >= if count == 0 then 0x1_0000_0000_0000_0000 else count
    ensures reason != Timeout ==>
              var at := |bsc.seen| - if reason == Nack then 1 else 2;
              && old(|bsc.seen|) < at && bsc.seen[at - 1].done
              && (reason == Nack <==> bsc.seen[at].err)
              && (reason == ClockTimeout <==> !bsc.seen[at].err && bsc.seen[at + 1].clkt)
              && (reason == MissingData <==> !bsc.seen[at].err && !bsc.seen[at + 1].clkt && |bsc.pushed| < len)
              && (reason == Ok <==> !bsc.seen[at].err && !bsc.seen[at + 1].clkt && |bsc.pushed| == len)
    ensures var n, first, i := old(|bsc.log|), if len < 16 then len else 16, |bsc.pushed|;
            && first <= i <= len && |bsc.log| == n + i + 5 && bsc.log[..n] == old(bsc.log)
            && bsc.log[n..n + 3] == [ClearFifo, ClearStatus, SetLength(len)]
            && (forall x :: 0 <= x < first ==> bsc.log[n + 3..][x] == Data(bsc.pushed[x]))
            && bsc.log[n + 3 + first] == Start
            && (forall x :: first <= x < i ==> bsc.log[n + 4..][x] == Data(bsc.pushed[x]))
            && bsc.log[n + 4 + i] == DoneToControl
  {
    hide Failsafe, Fuel, DoneClear, WriteProgram, Sending, FirstFill, Decided;
    reason, waits := SendAndDecide(bsc, buf, len);
    CountIs(len);
    if reason != Timeout {
      DecidedMeans(reason, bsc.seen, |bsc.pushed| == len);
    }
    ProgramIs(old(bsc.log), buf[..len], bsc.pushed, bsc.log);
  }

  /** Lines 1255-1320. waits counts the outer polls that saw DONE clear; every one of them and
      every refilled byte costs one decrement. */
  method SendAndDecide(bsc: Bsc, buf: array<byte>, len: nat) returns (reason: Reason, ghost waits: nat)
    requires bsc.Valid() && len <= buf.Length && len < WORD32
    modifies bsc
    ensures bsc.Valid()
    ensures FirstFill(len) <= |bsc.pushed| <= len && bsc.pushed == buf[..|bsc.pushed|]
    ensures bsc.log == old(bsc.log) + WriteProgram(buf[..len], |bsc.pushed|) + [DoneToControl]
    ensures reason == Timeout <==> waits + |bsc.pushed| - FirstFill(len) >= Fuel(Failsafe(len))
    ensures reason == Timeout && (len <= 4294967 || len % 0x2000_0000 == 0) ==> waits >= 999 * len
    ensures reason != Timeout ==>
              && Decided(reason, bsc.seen, |bsc.pushed| == len)
              && var guard := |bsc.seen| - if reason == Nack then 2 else 3;
                 guard >= 0 && bsc.seen[guard].done
    ensures waits + DoneClear(old(bsc.seen)) <= DoneClear(bsc.seen)
    ensures reason != Timeout ==> old(|bsc.seen|) < |bsc.seen| - if reason == Nack then 1 else 2
  {
    hide Failsafe, Fuel, DoneClear, WriteProgram, Sending;
    FuelForLength(len);
    ghost var data := buf[..len];
    var i := Prefill(bsc, buf, len);
    assert buf[..i] == data[..i];
    bsc.Control(Start);
    var timeout;
    i, timeout, waits := Feed(bsc, buf, len, i);
    assert buf[FirstFill(len)..i] == data[FirstFill(len)..i];
    if timeout {
      reason := Timeout;
    } else {
      reason := Decide(bsc, len - i);
    }
    bsc.Control(DoneToControl);
    ProgramInPieces(old(bsc.log), data, i);
  }

  /** Lines 1276-1297: refill the FIFO until DONE or until the count runs out. */
  method Feed(bsc: Bsc, buf: array<byte>, len: nat, first: nat) returns (i: nat, timeout: bool, ghost waits: nat)
    requires bsc.Valid() && len <= buf.Length && len < WORD32 && first == FirstFill(len)
    requires bsc.pushed == buf[..first]
    modifies bsc
    ensures bsc.Valid() && first <= i <= len && bsc.pushed == buf[..i]
    ensures bsc.log == old(bsc.log) + Sending(buf[first..i])
    ensures timeout <==> waits + i - first >= Fuel(Failsafe(len))
    ensures old(bsc.seen) <= bsc.seen && waits + DoneClear(old(bsc.seen)) <= DoneClear(bsc.seen)
    ensures !timeout ==> |bsc.seen| > |old(bsc.seen)| && bsc.seen[|bsc.seen| - 1].done
  {
    hide Failsafe, DoneClear, Sending;
    var remaining: nat, failsafe: nat := len - first, Failsafe(len);
    i, timeout, waits := first, false, 0;
    var s := bsc.ReadStatus();
    while !timeout && !s.done
      invariant bsc.Valid() && first <= i <= len && i + remaining == len && bsc.pushed == buf[..i]
      invariant bsc.log == old(bsc.log) + Sending(buf[first..i])
      invariant old(bsc.seen) < bsc.seen && (timeout || bsc.seen[|bsc.seen| - 1] == s)
      invariant waits + (if timeout || s.done then 0 else 1) + DoneClear(old(bsc.seen)) <= DoneClear(bsc.seen)
      invariant failsafe < WORD64
      invariant if timeout then waits + i - first == Fuel(Failsafe(len)) + 1
                else Fuel(failsafe) + waits + i - first == Fuel(Failsafe(len))
      decreases !timeout, Fuel(failsafe)
    {
      waits := waits + 1;
      ghost var j := i;
      i, timeout, failsafe := Refill(bsc, buf, len, i, failsafe);
      SendingSplits(buf[..], first, j, i);
      remaining := len - i;
      failsafe := Decremented(failsafe);
      if failsafe == 0 {
        timeout := true;
        break;
      }
      if !timeout {
        s := bsc.ReadStatus();
      }
    }
  }

  /** Lines 1278-1289: write while TXD, decrementing for each byte. */
  method Refill(bsc: Bsc, buf: array<byte>, len: nat, from: nat, count: nat)
    returns (i: nat, timeout: bool, failsafe: nat)
    requires bsc.Valid() && from <= len <= buf.Length && count < WORD64 && bsc.pushed == buf[..from]
    modifies bsc
    ensures bsc.Valid() && from <= i <= len && bsc.pushed == buf[..i]
    ensures bsc.log == old(bsc.log) + Sending(buf[from..i])
    ensures old(bsc.seen) <= bsc.seen && DoneClear(old(bsc.seen)) <= DoneClear(bsc.seen)
    ensures failsafe < WORD64 && (timeout ==> failsafe == 0)
    ensures if timeout then i - from == Fuel(count) else Fuel(failsafe) + (i - from) == Fuel(count)
  {
    i, timeout, failsafe := from, false, count;
    while !timeout && i < len
      invariant bsc.Valid() && from <= i <= len && bsc.pushed == buf[..i]
      invariant bsc.log == old(bsc.log) + Sending(buf[from..i])
      invariant old(bsc.seen) <= bsc.seen && DoneClear(old(bsc.seen)) <= DoneClear(bsc.seen)
      invariant !timeout && failsafe < WORD64
      invariant Fuel(failsafe) + (i - from) == Fuel(count)
      decreases len - i
    {
      var s := bsc.ReadStatus();
      if !s.txd {
        break;
      }
      bsc.Push(buf[i]);
      assert Sending(buf[from..i + 1]) == Sending(buf[from..i]) + [Data(buf[i])];
      i := i + 1;
      failsafe := Decremented(failsafe);
      if failsafe == 0 {
        timeout := true;
        break;
      }
    }
  }

  lemma CountIs(len: nat)
    ensures FirstFill(len) == if len < 16 then len else 16
    ensures var count := len * 1000 % 0x1_0000_0000;
            Fuel(Failsafe(len)) == if count == 0 then 0x1_0000_0000_0000_0000 else count
  {
  }

  /** The register writes of a write transfer, one by one. */
  lemma ProgramIs(before: seq<Access>, data: seq<byte>, pushed: seq<byte>, log: seq<Access>)
    requires FirstFill(|data|) <= |pushed| <= |data| && pushed == data[..|pushed|]
    requires log == before + WriteProgram(data, |pushed|) + [DoneToControl]
    ensures var n, first, i := |before|, if |data| < 16 then |data| else 16, |pushed|;
            && |log| == n + i + 5 && log[..n] == before
            && log[n..n + 3] == [ClearFifo, ClearStatus, SetLength(|data|)]
            && (forall x :: 0 <= x < first ==> log[n + 3..][x] == Data(pushed[x]))
            && log[n + 3 + first] == Start
            && (forall x :: first <= x < i ==> log[n + 4..][x] == Data(pushed[x]))
            && log[n + 4 + i] == DoneToControl
  {
  }

  lemma ProgramInPieces(before: seq<Access>, data: seq<byte>, i: nat)
    requires FirstFill(|data|) <= i <= |data|
    ensures before + WriteProgram(data, i) ==
            before + [ClearFifo, ClearStatus, SetLength(|data|)] + Sending(data[..FirstFill(|data|)]) + [Start] +
            Sending(data[FirstFill(|data|)..i])
  {
  }

  /** Lines 1258-1270: clear, set the length, and fill the FIFO before the transfer starts. */
  method Prefill(bsc: Bsc, buf: array<byte>, len: nat) returns (i: nat)
    requires bsc.Valid() && len <= buf.Length
    modifies bsc
    ensures bsc.Valid() && i == FirstFill(len) && bsc.pushed == buf[..i] && bsc.popped == []
    ensures bsc.seen == old(bsc.seen)
    ensures bsc.log == old(bsc.log) + [ClearFifo, ClearStatus, SetLength(len)] + Sending(buf[..i])
  {
    bsc.Clear();
    bsc.Control(ClearStatus);
    bsc.Control(SetLength(len));
    i := 0;
    var remaining := len;
    while remaining > 0 && i < FIFO_SIZE
      invariant bsc.Valid() && i + remaining == len && i <= FIFO_SIZE && |bsc.tx| <= i
      invariant bsc.pushed == buf[..i] && bsc.popped == [] && bsc.seen == old(bsc.seen)
      invariant bsc.log == old(bsc.log) + [ClearFifo, ClearStatus, SetLength(len)] + Sending(buf[..i])
    {
      bsc.Push(buf[i]);
      assert Sending(buf[..i + 1]) == Sending(buf[..i]) + [Data(buf[i])];
      i, remaining := i + 1, remaining - 1;
    }
  }

  // ----- reading -----

  /** A status read, if the run is followed that far. A polling loop of a read transfer can
      go on for ever, so its runs are described up to any number of polls: horizon. */
  method Poll(bsc: Bsc, horizon: nat) returns (s: Option<Status>, left: nat)
    requires bsc.Valid()
    modifies bsc`tx, bsc`rx, bsc`sent, bsc`delivered, bsc`seen
    ensures bsc.Valid() && old(bsc.rx) <= bsc.rx
    ensures |bsc.seen| + left == old(|bsc.seen|) + horizon
    ensures s.None? ==> horizon == 0 && bsc.seen == old(bsc.seen)
    ensures s.Some? ==>
              && bsc.seen == old(bsc.seen) + [s.value]
              && DoneClear(bsc.seen) == DoneClear(old(bsc.seen)) + (if s.value.done then 0 else 1)
              && (s.value.rxd ==> bsc.rx != [])
  {
    if horizon == 0 {
      return None, 0;
    }
    var status := bsc.ReadStatus();
    return Some(status), horizon - 1;
  }

  /** DONE was seen in one of the status words from number `from` on. */
  ghost predicate SawDone(seen: seq<Status>, from: nat) {
    exists k :: from <= k < |seen| && seen[k].done
  }

  lemma DoneAtLast(seen: seq<Status>, from: nat)
    requires from < |seen| && seen[|seen| - 1].done
    ensures SawDone(seen, from)
  {
  }

  lemma DoneBefore(seen: seq<Status>, longer: seq<Status>, from: nat)
    requires SawDone(seen, from) && seen <= longer
    ensures exists k :: from <= k < |seen| && longer[k].done
  {
    var k :| from <= k < |seen| && seen[k].done;
    assert longer[k].done;
  }

  lemma SawDoneLonger(seen: seq<Status>, longer: seq<Status>, from: nat)
    requires SawDone(seen, from) && seen <= longer
    ensures SawDone(longer, from)
  {
    var k :| from <= k < |seen| && seen[k].done;
    assert longer[k].done;
  }

  /** What has been received is the start of the buffer; the rest is as it was. */
  ghost predicate Received(bsc: Bsc, buf: array<byte>, before: seq<byte>, i: nat)
    reads bsc, buf
  {
    && bsc.Valid() && i <= |before| && |before| <= buf.Length
    && bsc.popped == buf[..i] && buf[i..|before|] == before[i..]
  }

  /** One of the drain loops of lines 1357-1373: empty the FIFO while RXD and room in buf. */
  method Drain(bsc: Bsc, buf: array<byte>, len: nat, from: nat, horizon: nat, ghost before: seq<byte>)
    returns (i: nat, left: nat, more: bool)
    requires Received(bsc, buf, before, from) && len == |before|
    modifies bsc, buf
    ensures Received(bsc, buf, before, i) && from <= i
    ensures forall k :: len <= k < buf.Length ==> buf[k] == old(buf[k])
    ensures bsc.log == old(bsc.log) && bsc.pushed == old(bsc.pushed)
    ensures |bsc.seen| + left == old(|bsc.seen|) + horizon && left <= horizon
    ensures if more then horizon - left <= i - from + 1 else left == 0 && horizon <= i - from
    ensures DoneClear(old(bsc.seen)) <= DoneClear(bsc.seen) && old(bsc.seen) <= bsc.seen
  {
    hide DoneClear;
    i, left, more := from, horizon, true;
    while i < len
      invariant Received(bsc, buf, before, i) && from <= i <= len
      invariant forall k :: len <= k < buf.Length ==> buf[k] == old(buf[k])
      invariant bsc.log == old(bsc.log) && bsc.pushed == old(bsc.pushed)
      invariant |bsc.seen| + left == old(|bsc.seen|) + horizon && left <= horizon
      invariant horizon - left == i - from
      invariant DoneClear(old(bsc.seen)) <= DoneClear(bsc.seen) && old(bsc.seen) <= bsc.seen
      decreases len - i
    {
      var s;
      s, left := Poll(bsc, left);
      if s.None? {
        more := false;
        return;
      }
      if !s.value.rxd {
        return;
      }
      buf[i] := bsc.Pop();
      i := i + 1;
    }
  }

  /** Lines 1354-1363: receive until a status word says DONE. */
  method ReceiveUntilDone(bsc: Bsc, buf: array<byte>, len: nat, horizon: nat, ghost before: seq<byte>)
    returns (i: nat, left: nat, finished: bool)
    requires Received(bsc, buf, before, 0) && len == |before|
    modifies bsc, buf
    ensures Received(bsc, buf, before, i)
    ensures forall k :: len <= k < buf.Length ==> buf[k] == old(buf[k])
    ensures bsc.log == old(bsc.log) && bsc.pushed == old(bsc.pushed)
    ensures |bsc.seen| + left == old(|bsc.seen|) + horizon && (!finished ==> left == 0)
    ensures old(|bsc.seen|) <= |bsc.seen| && DoneClear(old(bsc.seen)) <= DoneClear(bsc.seen)
    ensures horizon - left <= 2 * (DoneClear(bsc.seen) - DoneClear(old(bsc.seen))) + i + 1
    ensures finished ==> old(|bsc.seen|) < |bsc.seen| && bsc.seen[|bsc.seen| - 1].done
  {
    hide DoneClear;
    ghost var was := DoneClear(bsc.seen);
    var s, more;
    i, finished := 0, false;
    s, left := Poll(bsc, horizon);
    while s.Some? && !s.value.done
      invariant Received(bsc, buf, before, i) && |bsc.seen| + left == old(|bsc.seen|) + horizon
      invariant forall k :: len <= k < buf.Length ==> buf[k] == old(buf[k])
      invariant bsc.log == old(bsc.log) && bsc.pushed == old(bsc.pushed) && was <= DoneClear(bsc.seen)
      invariant horizon - left <= 2 * (DoneClear(bsc.seen) - was) + i +
                                  (if s.None? then 0 else if s.value.done then 1 else -1)
      invariant s.None? ==> left == 0
      invariant old(|bsc.seen|) <= |bsc.seen|
      invariant s.Some? ==> old(|bsc.seen|) < |bsc.seen| && bsc.seen[|bsc.seen| - 1] == s.value
      decreases s.Some?, left
    {
      i, left, more := Drain(bsc, buf, len, i, left, before);
      if !more {
        return;
      }
      s, left := Poll(bsc, left);
    }
    finished := s.Some?;
  }

  /** Lines 1354-1391, 1445-1482 and 1549-1586: receive until DONE, empty the FIFO, and say
      how it went. It can only still be polling if the device kept DONE clear. */
  method Receive(bsc: Bsc, buf: array<byte>, len: nat, horizon: nat) returns (reason: Option<Reason>)
    requires bsc.Valid() && bsc.popped == [] && len <= buf.Length
    modifies bsc, buf
    ensures Received(bsc, buf, old(buf[..len]), |bsc.popped|)
    ensures forall k :: len <= k < buf.Length ==> buf[k] == old(buf[k])
    ensures bsc.log == old(bsc.log) && bsc.pushed == old(bsc.pushed)
    ensures reason.Some? ==> Decided(reason.value, bsc.seen, |bsc.popped| == len)
    ensures reason.None? ==> horizon + 2 * DoneClear(old(bsc.seen)) <= 2 * DoneClear(bsc.seen) + |bsc.popped| + 1
    ensures DoneClear(old(bsc.seen)) <= DoneClear(bsc.seen)
    ensures reason.Some? ==> SawDone(bsc.seen, old(|bsc.seen|))
    ensures reason.Some? ==>
              var at := |bsc.seen| - if reason.value == Nack then 1 else 2;
              && old(|bsc.seen|) < at && reason.value != Timeout
              && (reason.value == Nack <==> bsc.seen[at].err)
              && (reason.value == ClockTimeout <==> !bsc.seen[at].err && bsc.seen[at + 1].clkt)
              && (reason.value == MissingData <==>
                    !bsc.seen[at].err && !bsc.seen[at + 1].clkt && |bsc.popped| < len)
              && (reason.value == Ok <==> !bsc.seen[at].err && !bsc.seen[at + 1].clkt && |bsc.popped| == len)
              && exists k :: old(|bsc.seen|) <= k < at && bsc.seen[k].done
    ensures |bsc.popped| <= len && bsc.popped == buf[..|bsc.popped|]
    ensures forall k :: |bsc.popped| <= k < buf.Length ==> buf[k] == old(buf[k])
  {
    hide DoneClear, SawDone, Decided;
    ghost var before := buf[..len];
    var i, left, more := ReceiveUntilDone(bsc, buf, len, horizon, before);
    if !more {
      return None;
    }
    ghost var polled := bsc.seen;
    DoneAtLast(polled, old(|bsc.seen|));
    i, left, more := Drain(bsc, buf, len, i, left, before);
    if !more {
      return None;
    }
    var r := Decide(bsc, len - i);
    SawDoneLonger(polled, bsc.seen, old(|bsc.seen|));
    DoneBefore(polled, bsc.seen, old(|bsc.seen|));
    DecidedMeans(r, bsc.seen, len == i);
    reason := Some(r);
  }

  /** bcm2835_i2c_read. */
  method Read(bsc: Bsc, buf: array<byte>, len: nat, horizon: nat) returns (reason: Option<Reason>)
    requires bsc.Valid() && len <= buf.Length
    modifies bsc, buf
    ensures Received(bsc, buf, old(buf[..len]), |bsc.popped|)
    ensures forall k :: len <= k < buf.Length ==> buf[k] == old(buf[k])
    ensures reason.Some? ==> Decided(reason.value, bsc.seen, |bsc.popped| == len) && SawDone(bsc.seen, old(|bsc.seen|))
    ensures reason.None? ==> horizon <= 2 * (DoneClear(bsc.seen) - DoneClear(old(bsc.seen))) + len + 1
    ensures bsc.log == old(bsc.log) + [ClearFifo, ClearStatus, SetLength(len), StartRead]
                       + (if reason.Some? then [DoneToStatus] else [])
    ensures reason.Some? ==>
              var at := |bsc.seen| - if reason.value == Nack then 1 else 2;
              && old(|bsc.seen|) < at && reason.value != Timeout
              && (reason.value == Nack <==> bsc.seen[at].err)
              && (reason.value == ClockTimeout <==> !bsc.seen[at].err && bsc.seen[at + 1].clkt)
              && (reason.value == MissingData <==>
                    !bsc.seen[at].err && !bsc.seen[at + 1].clkt && |bsc.popped| < len)
              && (reason.value == Ok <==> !bsc.seen[at].err && !bsc.seen[at + 1].clkt && |bsc.popped| == len)
              && exists k :: old(|bsc.seen|) <= k < at && bsc.seen[k].done
    ensures |bsc.popped| <= len && bsc.popped == buf[..|bsc.popped|]
    ensures forall k :: |bsc.popped| <= k < buf.Length ==> buf[k] == old(buf[k])
  {
    bsc.Clear();
    bsc.Control(ClearStatus);
    bsc.Control(SetLength(len));
    bsc.Control(StartRead);
    hide DoneClear, Decided;
    reason := Receive(bsc, buf, len, horizon);
    if reason.Some? {
      bsc.Control(DoneToStatus);
    }
  }

  /** Lines 1430-1435 and 1531-1536: wait for TA, or for DONE in case TA came and went. */
  method AwaitStarted(bsc: Bsc, horizon: nat) returns (started: bool, left: nat)
    requires bsc.Valid()
    modifies bsc`tx, bsc`rx, bsc`sent, bsc`delivered, bsc`seen
    ensures bsc.Valid() && DoneClear(old(bsc.seen)) <= DoneClear(bsc.seen)
    ensures |bsc.seen| + left == old(|bsc.seen|) + horizon && left <= horizon
    ensures horizon - left <= 2 * (DoneClear(bsc.seen) - DoneClear(old(bsc.seen))) + 2
    ensures !started ==> left == 0
  {
    hide DoneClear;
    var s;
    s, left := Poll(bsc, horizon);
    while s.Some? && !s.value.ta
      invariant bsc.Valid() && DoneClear(old(bsc.seen)) <= DoneClear(bsc.seen)
      invariant |bsc.seen| + left == old(|bsc.seen|) + horizon && left <= horizon
      invariant horizon - left <= 2 * (DoneClear(bsc.seen) - DoneClear(old(bsc.seen))) + if s.None? then 0 else 1
      invariant s.None? ==> left == 0
      decreases s.Some?, left
    {
      s, left := Poll(bsc, left);
      if s.None? {
        return false, left;
      }
      if s.value.done {
        return true, left;
      }
      s, left := Poll(bsc, left);
    }
    started := s.Some?;
  }

  /** Lines 1537-1590 after the command phase: restart as a read. */
  method Restart(bsc: Bsc, buf: array<byte>, len: nat, horizon: nat) returns (reason: Option<Reason>)
    requires bsc.Valid() && bsc.popped == [] && len <= buf.Length
    modifies bsc, buf
    ensures Received(bsc, buf, old(buf[..len]), |bsc.popped|) && bsc.pushed == old(bsc.pushed)
    ensures forall k :: len <= k < buf.Length ==> buf[k] == old(buf[k])
    ensures reason.Some? ==>
              && Decided(reason.value, bsc.seen, |bsc.popped| == len) && SawDone(bsc.seen, old(|bsc.seen|))
              && bsc.log == old(bsc.log) + [SetLength(len), StartRead, DoneToControl]
    ensures reason.None? ==>
              && old(bsc.log) <= bsc.log <= old(bsc.log) + [SetLength(len), StartRead]
              && horizon <= 2 * (DoneClear(bsc.seen) - DoneClear(old(bsc.seen))) + len + 3
    ensures reason.Some? ==>
              var at := |bsc.seen| - if reason.value == Nack then 1 else 2;
              && old(|bsc.seen|) < at && reason.value != Timeout
              && (reason.value == Nack <==> bsc.seen[at].err)
              && (reason.value == ClockTimeout <==> !bsc.seen[at].err && bsc.seen[at + 1].clkt)
              && (reason.value == MissingData <==>
                    !bsc.seen[at].err && !bsc.seen[at + 1].clkt && |bsc.popped| < len)
              && (reason.value == Ok <==> !bsc.seen[at].err && !bsc.seen[at + 1].clkt && |bsc.popped| == len)
              && exists k :: old(|bsc.seen|) <= k < at && bsc.seen[k].done
    ensures |bsc.popped| <= len && bsc.popped == buf[..|bsc.popped|]
    ensures forall k :: |bsc.popped| <= k < buf.Length ==> buf[k] == old(buf[k])
  {
    hide DoneClear, Decided;
    var started, left := AwaitStarted(bsc, horizon);
    if !started {
      return None;
    }
    bsc.Control(SetLength(len));
    bsc.Control(StartRead);
    reason := Receive(bsc, buf, len, left);
    if reason.Some? {
      bsc.Control(DoneToControl);
    }
  }

  /** bcm2835_i2c_read_register_rs. */
  method ReadRegisterRs(bsc: Bsc, regaddr: byte, buf: array<byte>, len: nat, horizon: nat)
    returns (reason: Option<Reason>)
    requires bsc.Valid() && len <= buf.Length
    modifies bsc, buf
    ensures Received(bsc, buf, old(buf[..len]), |bsc.popped|) && bsc.pushed == [regaddr]
    ensures forall k :: len <= k < buf.Length ==> buf[k] == old(buf[k])
    ensures reason.Some? ==>
              && Decided(reason.value, bsc.seen, |bsc.popped| == len) && SawDone(bsc.seen, old(|bsc.seen|))
              && bsc.log == old(bsc.log) + [ClearFifo, ClearStatus, SetLength(1), Enable, Data(regaddr), Start]
                              + [SetLength(len), StartRead, DoneToControl]
    ensures reason.None? ==>
              && old(bsc.log) + [ClearFifo, ClearStatus, SetLength(1), Enable, Data(regaddr), Start] <= bsc.log
              && horizon <= 2 * (DoneClear(bsc.seen) - DoneClear(old(bsc.seen))) + len + 3
    ensures reason.Some? ==>
              var at := |bsc.seen| - if reason.value == Nack then 1 else 2;
              && old(|bsc.seen|) < at && reason.value != Timeout
              && (reason.value == Nack <==> bsc.seen[at].err)
              && (reason.value == ClockTimeout <==> !bsc.seen[at].err && bsc.seen[at + 1].clkt)
              && (reason.value == MissingData <==>
                    !bsc.seen[at].err && !bsc.seen[at + 1].clkt && |bsc.popped| < len)
              && (reason.value == Ok <==> !bsc.seen[at].err && !bsc.seen[at + 1].clkt && |bsc.popped| == len)
              && exists k :: old(|bsc.seen|) <= k < at && bsc.seen[k].done
    ensures |bsc.popped| <= len && bsc.popped == buf[..|bsc.popped|]
    ensures forall k :: |bsc.popped| <= k < buf.Length ==> buf[k] == old(buf[k])
  {
    hide DoneClear, Decided, SawDone, Received;
    bsc.Clear();
    bsc.Control(ClearStatus);
    bsc.Control(SetLength(1));
    bsc.Control(Enable);
    bsc.Push(regaddr);
    bsc.Control(Start);
    ghost var command := [ClearFifo, ClearStatus, SetLength(1), Enable, Data(regaddr), Start];
    assert bsc.log == old(bsc.log) + command;
    reason := Restart(bsc, buf, len, horizon);
  }

  /** bcm2835_i2c_write_read_rs. Whatever cmdsLen says, no more command bytes go out than the
      FIFO holds, so the whole command is sent exactly when it is at most 16 bytes long. */
  method WriteReadRs(bsc: Bsc, cmds: array<byte>, cmdsLen: nat, buf: array<byte>, len: nat, horizon: nat)
    returns (reason: Option<Reason>)
    requires bsc.Valid() && cmdsLen <= cmds.Length && len <= buf.Length
    modifies bsc, buf
    ensures bsc.pushed == old(cmds[..FirstFill(cmdsLen)])
    ensures bsc.pushed == old(cmds[..cmdsLen]) <==> cmdsLen <= FIFO_SIZE
    ensures Received(bsc, buf, old(buf[..len]), |bsc.popped|)
    ensures forall k :: len <= k < buf.Length ==> buf[k] == old(buf[k])
    ensures reason.Some? ==>
              && Decided(reason.value, bsc.seen, |bsc.popped| == len) && SawDone(bsc.seen, old(|bsc.seen|))
              && bsc.log == old(bsc.log) + Command(old(cmds[..cmdsLen])) + [SetLength(len), StartRead, DoneToControl]
    ensures reason.None? ==>
              && old(bsc.log) + Command(old(cmds[..cmdsLen])) <= bsc.log
              && horizon <= 2 * (DoneClear(bsc.seen) - DoneClear(old(bsc.seen))) + len + 3
    ensures reason.Some? ==>
              var at := |bsc.seen| - if reason.value == Nack then 1 else 2;
              && old(|bsc.seen|) < at && reason.value != Timeout
              && (reason.value == Nack <==> bsc.seen[at].err)
              && (reason.value == ClockTimeout <==> !bsc.seen[at].err && bsc.seen[at + 1].clkt)
              && (reason.value == MissingData <==>
                    !bsc.seen[at].err && !bsc.seen[at + 1].clkt && |bsc.popped| < len)
              && (reason.value == Ok <==> !bsc.seen[at].err && !bsc.seen[at + 1].clkt && |bsc.popped| == len)
              && exists k :: old(|bsc.seen|) <= k < at && bsc.seen[k].done
    ensures |bsc.popped| <= len && bsc.popped == buf[..|bsc.popped|]
    ensures forall k :: |bsc.popped| <= k < buf.Length ==> buf[k] == old(buf[k])
    ensures bsc.pushed == old(cmds[..if cmdsLen < 16 then cmdsLen else 16])
    ensures var n, first := old(|bsc.log|), |bsc.pushed|;
            && |bsc.log| >= n + first + 4 && bsc.log[..n] == old(bsc.log)
            && bsc.log[n..n + 3] == [ClearFifo, ClearStatus, SetLength(cmdsLen)]
            && (forall x :: 0 <= x < first ==> bsc.log[n + 3..][x] == Data(bsc.pushed[x]))
            && bsc.log[n + 3 + first] == Start
            && (reason.Some? ==> bsc.log[n + first + 4..] == [SetLength(len), StartRead, DoneToControl])
  {
    hide DoneClear, Decided, Received, SawDone, Sending;
    ghost var command, before := cmds[..cmdsLen], bsc.log;
    var i := Prefill(bsc, cmds, cmdsLen);
    assert cmds[..i] == command[..i];
    bsc.Control(Start);
    assert bsc.log == before + Command(command);
    CommandIs(before, command, bsc.log);
    ghost var started := bsc.log;
    hide Command, FirstFill;
    reason := Restart(bsc, buf, len, horizon);
    assert started <= bsc.log;
  }

  /** The register writes of the command phase, one by one. */
  lemma CommandIs(before: seq<Access>, cmds: seq<byte>, log: seq<Access>)
    requires log == before + Command(cmds)
    ensures var n, first := |before|, if |cmds| < 16 then |cmds| else 16;
            && FirstFill(|cmds|) == first && |log| == n + first + 4 && log[..n] == before
            && log[n..n + 3] == [ClearFifo, ClearStatus, SetLength(|cmds|)]
            && (forall x :: 0 <= x < first ==> log[n + 3..][x] == Data(cmds[x]))
            && log[n + 3 + first] == Start
  {
  }

  function Command(cmds: seq<byte>): seq<Access> {
    [ClearFifo, ClearStatus, SetLength(|cmds|)] + Sending(cmds[..FirstFill(|cmds|)]) + [Start]
  }
}
