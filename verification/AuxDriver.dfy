/** bcm2835_aux_spi_transfernb and bcm2835_aux_spi_writenb; line numbers are those of bcm2835.c. */
module AuxDriver {
  import opened Options
  import opened BitOrder
  import opened Wire
  import opened AuxWords
  import opened Fifo
  import opened AuxFlow
  import opened AuxSpi

  /** How a transfer ends. It underruns when line 1088 finds the hardware idle although
      bytes are still to be sent: the loop there then reads words that never arrived.
      After an underrun it can also fail to return at all: it waits for room in the TX
      FIFO while the hardware waits for the RX FIFO, which is not read any more. */
  datatype Outcome = Returned(underrun: bool) | Spins

  /** What a transfer was asked to do: the memory and the wire it found, the places of both
      buffers (None for a null pointer), and their length. */
  datatype Job = Job(before: seq<byte>, past: seq<byte>, t: Option<nat>, r: Option<nat>, len: nat) {
    predicate Fits() {
      && (t.Some? ==> t.value + len <= |before|)
      && (r.Some? ==> r.value + len <= |before|)
    }

    /** Memory once so many bytes have been stored. */
    function Stored(received: seq<byte>): (now: seq<byte>)
      requires Fits() && |received| <= len
      ensures |now| == |before|
    {
      if r.None? then before else Overlay(before, r.value, received)
    }

    /** Word i, fetched after so many words have been stored. */
    function Fetched(stored: seq<byte>, lead: nat, i: nat): (c: seq<byte>)
      requires Fits() && i < WordCount(len) && Covered(len, lead) <= |stored| <= len
      ensures |c| == Covered(len, i + 1) - Covered(len, i)
    {
      BytesAt(Stored(stored[..Covered(len, lead)]), t, 3 * i, Covered(len, i + 1) - Covered(len, i))
    }
  }

  /** How far a transfer has come: for every word written the number of words stored when it
      was fetched, the number of words read, and the bytes these left in the receive buffer. */
  datatype Run = Run(leads: seq<nat>, read: nat, stored: seq<byte>)

  /** Every word went out as it was in memory when it was fetched, and what the words that
      arrived have carried is in the receive buffer, from its start. */
  ghost predicate Filed(job: Job, run: Run, pushed: seq<Word>, popped: seq<seq<byte>>, now: seq<byte>) {
    && job.Fits() && |pushed| == |run.leads| <= WordCount(job.len) && WellFramed(pushed, job.len)
    && |run.stored| == Covered(job.len, run.read) && now == job.Stored(run.stored)
    && (forall i :: 0 <= i < |pushed| ==>
          run.leads[i] <= run.read && pushed[i].bytes == job.Fetched(run.stored, run.leads[i], i))
    && |Flatten(popped)| == Covered(job.len, |popped|) && Flatten(popped) <= run.stored
  }

  /** Reads that found nothing come last, and left noise. */
  ghost predicate Noisy(len: nat, stored: seq<byte>, popped: seq<seq<byte>>, noise: Noise) {
    forall i :: Covered(len, |popped|) <= i < |stored| ==> FromNoise(noise, stored[i])
  }

  /** A transfer under way. */
  ghost predicate Streaming(spi: Peripheral, mem: array<byte>, job: Job, run: Run)
    reads spi, mem
    ensures Streaming(spi, mem, job, run) ==>
              spi.Valid() && job.Fits() && |run.leads| <= WordCount(job.len) && run.read <= WordCount(job.len)
    ensures Streaming(spi, mem, job, run) ==> |mem[..]| == |job.before|
  {
    && spi.Valid() && spi.past == job.past
    && run.read <= WordCount(job.len) && |spi.popped| + spi.emptyReads == run.read
    && (spi.emptyReads > 0 && run.read < WordCount(job.len) ==> spi.Counts().Words() == 0)
    && (spi.emptyReads == 0 ==> forall i :: 0 <= i < |run.leads| ==> run.leads[i] <= i)
    && Filed(job, run, spi.pushed, spi.popped, mem[..])
    && Noisy(job.len, run.stored, spi.popped, spi.noise)
  }

  /** Every word written is under way, was read, or is still to be read. */
  lemma Accounts(spi: Peripheral, mem: array<byte>, job: Job, run: Run)
    requires Streaming(spi, mem, job, run)
    ensures |spi.tx| + |spi.shift| + |spi.rx| + run.read == |run.leads| + spi.emptyReads
    ensures spi.emptyReads > 0 && run.read < WordCount(job.len) ==> spi.Counts().Words() == 0
  {
  }

  /** The counts of a transfer of n words. */
  ghost function FlowOf(spi: Peripheral, n: nat, run: Run): Flow
    requires |run.leads| <= n && run.read <= n
    reads spi
  {
    Flow(spi.Counts(), n - |run.leads|, n - run.read, spi.emptyReads)
  }

  /** The bytes at a place in memory, or zeros for a null pointer. */
  function BytesAt(now: seq<byte>, t: Option<nat>, pos: nat, count: nat): (c: seq<byte>)
    requires t.Some? ==> t.value + pos + count <= |now|
    ensures |c| == count
  {
    if t.None? then seq(count, _ => 0) else now[t.value + pos..t.value + pos + count]
  }

  lemma BytesAtIs(now: seq<byte>, t: Option<nat>, pos: nat, count: nat, i: nat)
    requires (t.Some? ==> t.value + pos + count <= |now|) && i < count
    ensures BytesAt(now, t, pos, count)[i] == if t.None? then 0 else now[t.value + pos + i]
  {
  }

  /** Byte i of a word, moved to its place. */
  function AtPlace(b: byte, i: nat): bv32
    requires i < 3
  {
    (b as bv32) << (8 * (2 - i))
  }

  /** Lines 991-999 and 1047-1055: up to three bytes of the message, zeros for a null pointer. */
  method PackWord(mem: array<byte>, t: Option<nat>, pos: nat, count: nat) returns (data: bv32)
    requires 1 <= count <= 3 && (t.Some? ==> t.value + pos + count <= mem.Length)
    ensures data == TxWord(BytesAt(mem[..], t, pos, count))
  {
    hide Placed, AtPlace, Tag;
    ghost var c := BytesAt(mem[..], t, pos, count);
    data := 0;
    NothingPlaced(c);
    for i := 0 to count
      invariant data == Placed(c[..i])
    {
      var b: byte := if t.Some? then mem[t.value + pos + i] else 0;
      data := data | AtPlace(b, i);
      assert c[..i + 1] == c[..i] + [b];
      PlacedOneMore(c[..i], b);
    }
    assert c[..count] == c;
    data := data | Tag(count);
  }

  lemma NothingPlaced(c: seq<byte>)
    ensures Placed(c[..0]) == 0
  {
  }

  lemma PlacedOneMore(c: seq<byte>, b: byte)
    requires |c| < 3
    ensures Placed(c) | AtPlace(b, |c|) == Placed(c + [b])
  {
    hide Placed, AtPlace;
    match |c|
    case 0 => PlaceFirst(c, b);
    case 1 => PlaceSecond(c, b);
    case _ => PlaceThird(c, b);
  }

  lemma PlaceFirst(c: seq<byte>, b: byte)
    requires |c| == 0
    ensures Placed(c) | AtPlace(b, 0) == Placed(c + [b])
  {
  }

  lemma PlaceSecond(c: seq<byte>, b: byte)
    requires |c| == 1
    ensures Placed(c) | AtPlace(b, 1) == Placed(c + [b])
  {
  }

  lemma PlaceThird(c: seq<byte>, b: byte)
    requires |c| == 2
    ensures Placed(c) | AtPlace(b, 2) == Placed(c + [b])
  {
  }

  /** The receive switch of lines 1070-1083. */
  method StoreWord(mem: array<byte>, at: nat, data: bv32, count: nat)
    requires 1 <= count <= 3 && at + count <= mem.Length
    modifies mem
    ensures mem[..] == Overlay(old(mem[..]), at, Unpack(data, count))
  {
    var rx := at;
    if count == 3 {
      mem[rx] := ((data >> 16) & 0xff) as byte;
      rx := rx + 1;
    }
    if count >= 2 {
      mem[rx] := ((data >> 8) & 0xff) as byte;
      rx := rx + 1;
    }
    mem[rx] := (data & 0xff) as byte;
  }

  lemma FetchedNow(job: Job, stored: seq<byte>, read: nat, i: nat)
    requires job.Fits() && i < WordCount(job.len) && |stored| == Covered(job.len, read) <= job.len
    ensures job.Fetched(stored, read, i)
         == BytesAt(job.Stored(stored), job.t, 3 * i, Covered(job.len, i + 1) - Covered(job.len, i))
  {
    assert stored[..|stored|] == stored;
  }

  /** What was fetched before does not change when more is stored. */
  lemma FetchedStays(job: Job, stored: seq<byte>, more: seq<byte>, lead: nat, i: nat)
    requires job.Fits() && i < WordCount(job.len)
    requires Covered(job.len, lead) <= |stored| && |stored| + |more| <= job.len
    ensures job.Fetched(stored + more, lead, i) == job.Fetched(stored, lead, i)
  {
    assert (stored + more)[..Covered(job.len, lead)] == stored[..Covered(job.len, lead)];
  }

  lemma WellFramedOneMore(words: seq<Word>, w: Word, len: nat)
    requires WellFramed(words, len) && w.last == (|words| + 1 == WordCount(len))
    requires |w.bytes| == Covered(len, |words| + 1) - Covered(len, |words|)
    ensures WellFramed(words + [w], len)
  {
  }

  lemma PushFiled(job: Job, run: Run, pushed: seq<Word>, popped: seq<seq<byte>>, now: seq<byte>, w: Word)
    requires Filed(job, run, pushed, popped, now) && |pushed| < WordCount(job.len)
    requires var k := |pushed|;
             w == Word(BytesAt(now, job.t, 3 * k, Covered(job.len, k + 1) - Covered(job.len, k)),
                       k + 1 == WordCount(job.len))
    ensures Filed(job, run.(leads := run.leads + [run.read]), pushed + [w], popped, now)
  {
    hide Job.Stored, Job.Fetched, Flatten, WellFramed;
    FetchedNow(job, run.stored, run.read, |pushed|);
    WellFramedOneMore(pushed, w, job.len);
  }

  method PushWord(spi: Peripheral, mem: array<byte>, ghost job: Job, t: Option<nat>, len: nat, txLen: nat,
                  ghost run: Run)
    returns (left: nat, ghost ran: Run)
    requires Streaming(spi, mem, job, run) && t == job.t && len == job.len
    requires |run.leads| < WordCount(len) && txLen == len - Covered(len, |run.leads|) && |spi.tx| < spi.depth
    requires spi.emptyReads > 0 ==> run.read == WordCount(len)
    modifies spi
    ensures ran == run.(leads := run.leads + [run.read])
    ensures Streaming(spi, mem, job, ran) && left == len - Covered(len, |ran.leads|)
    ensures spi.emptyReads == old(spi.emptyReads) && spi.Counts() == spi.Hardware().Written(old(spi.Counts()))
  {
    hide Filed, Noisy, Flatten, Overlay, Peripheral.Valid, Machine.Written;
    ghost var k := |run.leads|;
    ran := run.(leads := run.leads + [run.read]);
    var count := if txLen < 3 then txLen else 3;
    left := txLen - count;
    Accounts(spi, mem, job, run);
    FiledMeans(job, run, spi.pushed, spi.popped, mem[..]);
    ghost var w := Word(BytesAt(mem[..], t, 3 * k, count), left == 0);
    PushFiled(job, run, spi.pushed, spi.popped, mem[..], w);
    SendChunk(spi, mem, t, len - txLen, count, left == 0);
    assert spi.pushed == old(spi.pushed) + [w];
  }

  lemma FiledMeans(job: Job, run: Run, pushed: seq<Word>, popped: seq<seq<byte>>, now: seq<byte>)
    requires Filed(job, run, pushed, popped, now)
    ensures job.Fits() && |now| == |job.before| && |pushed| == |run.leads| <= WordCount(job.len)
    ensures |run.stored| == Covered(job.len, run.read)
    ensures forall i :: 0 <= i < |pushed| ==> |pushed[i].bytes| == Covered(job.len, i + 1) - Covered(job.len, i)
  {
  }

  method SendChunk(spi: Peripheral, mem: array<byte>, t: Option<nat>, pos: nat, count: nat, last: bool)
    requires spi.Valid() && |spi.tx| < spi.depth
    requires 1 <= count <= 3 && (t.Some? ==> t.value + pos + count <= mem.Length)
    modifies spi
    ensures spi.Valid() && spi.past == old(spi.past) && spi.popped == old(spi.popped)
    ensures spi.emptyReads == old(spi.emptyReads) && spi.Counts() == spi.Hardware().Written(old(spi.Counts()))
    ensures spi.pushed == old(spi.pushed) + [Word(BytesAt(mem[..], t, pos, count), last)]
  {
    var data := PackWord(mem, t, pos, count);
    ghost var c := BytesAt(mem[..], t, pos, count);
    PackedWordSendsItsBytes(c);
    spi.Write(data, last);
  }

  /** A word read and stored: the next that arrived, if all reads so far have got one, or noise. */
  lemma PopFiled(job: Job, run: Run, pushed: seq<Word>, popped: seq<seq<byte>>, now: seq<byte>,
                 later: seq<byte>, got: seq<seq<byte>>, d: seq<byte>)
    requires Filed(job, run, pushed, popped, now) && run.read < WordCount(job.len)
    requires |d| == Covered(job.len, run.read + 1) - Covered(job.len, run.read)
    requires later == if job.r.None? then now else Overlay(now, job.r.value + |run.stored|, d)
    requires got == popped || (got == popped + [d] && |popped| == run.read)
    ensures Filed(job, Run(run.leads, run.read + 1, run.stored + d), pushed, got, later)
  {
    hide Job.Fetched, Flatten, Overlay;
    forall i | 0 <= i < |pushed|
      ensures job.Fetched(run.stored + d, run.leads[i], i) == job.Fetched(run.stored, run.leads[i], i)
    {
      FetchedStays(job, run.stored, d, run.leads[i], i);
    }
    if job.r.Some? {
      OverlayGrows(job.before, job.r.value, run.stored, d);
    }
    if got != popped {
      FlattenOneMore(popped, d);
    }
  }

  /** One word read and stored, unless the caller does not want the reply. With the hardware
      idle it may be a word that never arrived. */
  method PopWord(spi: Peripheral, mem: array<byte>, ghost job: Job, r: Option<nat>, len: nat, rxLen: nat,
                 ghost run: Run)
    returns (left: nat, ghost ran: Run)
    requires Streaming(spi, mem, job, run) && r == job.r && len == job.len
    requires run.read < WordCount(len) && rxLen == len - Covered(len, run.read)
    requires spi.rx != [] || (spi.tx == [] && spi.shift == [])
    modifies spi, mem
    ensures ran.leads == run.leads && ran.read == run.read + 1
    ensures Streaming(spi, mem, job, ran) && left == len - Covered(len, ran.read)
    ensures FlowOf(spi, WordCount(len), ran) == spi.Hardware().Popped(old(FlowOf(spi, WordCount(len), run)))
  {
    hide Filed, Noisy, Overlay, Flatten, Peripheral.Valid, Machine.Settled, Machine.Taken;
    var count := if rxLen < 3 then rxLen else 3;
    ghost var now := mem[..];
    Accounts(spi, mem, job, run);
    FiledMeans(job, run, spi.pushed, spi.popped, now);
    assert count == Covered(len, run.read + 1) - Covered(len, run.read);
    if |spi.popped| < |spi.pushed| {
      assert |spi.popped| == run.read;
    }
    ghost var d := TakeChunk(spi, mem, r, len - rxLen, count);
    left := rxLen - count;
    ran := Run(run.leads, run.read + 1, run.stored + d);
    PopFiled(job, run, spi.pushed, old(spi.popped), now, mem[..], spi.popped, d);
    PopNoisy(job.len, run.stored, run.read, old(spi.popped), spi.popped, d, spi.noise);
  }

  lemma PopNoisy(len: nat, stored: seq<byte>, read: nat, popped: seq<seq<byte>>, got: seq<seq<byte>>,
                 d: seq<byte>, noise: Noise)
    requires Noisy(len, stored, popped, noise) && |stored| == Covered(len, read) && read < WordCount(len)
    requires |d| == Covered(len, read + 1) - Covered(len, read)
    requires (got == popped + [d] && |popped| == read)
          || (got == popped && forall i :: 0 <= i < |d| ==> FromNoise(noise, d[i]))
    ensures Noisy(len, stored + d, got, noise)
  {
    hide FromNoise;
  }

  /** Lines 1067-1086: d is what the word read puts into memory. */
  method TakeChunk(spi: Peripheral, mem: array<byte>, r: Option<nat>, at: nat, count: nat) returns (ghost d: seq<byte>)
    requires spi.Valid() && 1 <= count <= 3 && (r.Some? ==> r.value + at + count <= mem.Length)
    requires |spi.popped| < |spi.pushed| ==> |spi.pushed[|spi.popped|].bytes| == count
    modifies spi, mem
    ensures spi.Valid() && spi.past == old(spi.past) && spi.pushed == old(spi.pushed)
    ensures spi.Counts() == spi.Hardware().Taken(old(spi.Counts()))
    ensures spi.emptyReads == old(spi.emptyReads) + if spi.Hardware().Settled(old(spi.Counts())).rx == 0 then 1 else 0
    ensures |d| == count && mem[..] == if r.None? then old(mem[..]) else Overlay(old(mem[..]), r.value + at, d)
    ensures if spi.emptyReads == old(spi.emptyReads) then spi.popped == old(spi.popped) + [d]
            else spi.popped == old(spi.popped) && forall i :: 0 <= i < |d| ==> FromNoise(spi.noise, d[i])
  {
    hide Peripheral.Valid, Machine.Settled, Machine.Taken, Unpack, FromNoise;
    ghost var at0 := spi.clock;
    var data, c := spi.ReadIo();
    d := Unpack(data, count);
    NoiseBytes(spi.noise, at0, count);
    if r.Some? {
      StoreWord(mem, r.value + at, data, count);
    }
  }

  method Poll(spi: Peripheral, mem: array<byte>, ghost job: Job, ghost run: Run) returns (s: Status)
    requires Streaming(spi, mem, job, run)
    modifies spi
    ensures Streaming(spi, mem, job, run)
    ensures s == Status(|spi.tx| == spi.depth, spi.rx == [], spi.tx != [] || spi.shift != [])
    ensures spi.emptyReads == old(spi.emptyReads)
    ensures FlowOf(spi, WordCount(job.len), run) == spi.Hardware().Waited(old(FlowOf(spi, WordCount(job.len), run)))
  {
    hide Filed, Noisy, Machine.Settled;
    s := spi.ReadStat();
  }

  method PushAndPoll(spi: Peripheral, mem: array<byte>, ghost job: Job, t: Option<nat>, len: nat, txLen: nat,
                     ghost run: Run)
    returns (left: nat, s: Status, ghost ran: Run)
    requires Streaming(spi, mem, job, run) && t == job.t && len == job.len
    requires |run.leads| < WordCount(len) && txLen == len - Covered(len, |run.leads|) && |spi.tx| < spi.depth
    requires spi.emptyReads > 0 ==> run.read == WordCount(len)
    modifies spi
    ensures ran == run.(leads := run.leads + [run.read])
    ensures Streaming(spi, mem, job, ran) && left == len - Covered(len, |ran.leads|)
    ensures s.txFull == (|spi.tx| == spi.depth) && spi.emptyReads == old(spi.emptyReads)
    ensures var was := old(FlowOf(spi, WordCount(len), run));
            FlowOf(spi, WordCount(len), ran) == spi.Hardware().Waited(spi.Hardware().Pushed(was))
  {
    hide Streaming, Peripheral.Valid, Machine.Settled, Machine.Written;
    left, ran := PushWord(spi, mem, job, t, len, txLen, run);
    s := Poll(spi, mem, job, ran);
  }

  method PopAndPoll(spi: Peripheral, mem: array<byte>, ghost job: Job, r: Option<nat>, len: nat, rxLen: nat,
                    ghost run: Run)
    returns (left: nat, s: Status, ghost ran: Run)
    requires Streaming(spi, mem, job, run) && r == job.r && len == job.len
    requires run.read < WordCount(len) && rxLen == len - Covered(len, run.read)
    requires spi.rx != [] || (spi.tx == [] && spi.shift == [])
    modifies spi, mem
    ensures ran.leads == run.leads && ran.read == run.read + 1
    ensures Streaming(spi, mem, job, ran) && left == len - Covered(len, ran.read)
    ensures s == Status(|spi.tx| == spi.depth, spi.rx == [], spi.tx != [] || spi.shift != [])
    ensures var was := old(FlowOf(spi, WordCount(len), run));
            FlowOf(spi, WordCount(len), ran) == spi.Hardware().Waited(spi.Hardware().Popped(was))
    ensures old(spi.tx) == [] && old(spi.shift) == [] ==> !s.busy
  {
    hide Streaming, Peripheral.Valid, Machine.Settled, Machine.Taken;
    left, ran := PopWord(spi, mem, job, r, len, rxLen, run);
    s := Poll(spi, mem, job, ran);
  }

  /** Lines 1046-1064: write words while the TX FIFO has room. */
  method FillTx(spi: Peripheral, mem: array<byte>, ghost job: Job, t: Option<nat>, len: nat, txLen: nat, ghost run: Run)
    returns (left: nat, ghost ran: Run)
    requires Streaming(spi, mem, job, run) && t == job.t && len == job.len
    requires txLen == len - Covered(len, |run.leads|)
    requires spi.emptyReads > 0 ==> run.read == WordCount(len)
    modifies spi
    ensures Streaming(spi, mem, job, ran) && left == len - Covered(len, |ran.leads|)
    ensures ran.read == run.read && |run.leads| <= |ran.leads| && spi.emptyReads == old(spi.emptyReads)
    ensures ran.leads == run.leads + Repeated(run.read, |ran.leads| - |run.leads|)
    ensures var was := old(FlowOf(spi, WordCount(len), run));
            FlowOf(spi, WordCount(len), ran) == spi.Hardware().Filled(spi.Hardware().Waited(was))
  {
    hide Streaming, Peripheral.Valid, Machine.Waited, Machine.Pushed, Machine.Filled;
    left, ran := txLen, run;
    ghost var n, start := WordCount(len), FlowOf(spi, WordCount(len), run);
    ghost var goal := spi.Hardware().Filled(spi.Hardware().Waited(start));
    var s := Poll(spi, mem, job, ran);
    while !s.txFull && left > 0
      invariant Streaming(spi, mem, job, ran)
      invariant left == len - Covered(len, |ran.leads|) && s.txFull == (|spi.tx| == spi.depth)
      invariant ran.read == run.read && |run.leads| <= |ran.leads|
      invariant ran.leads == run.leads + Repeated(run.read, |ran.leads| - |run.leads|)
      invariant spi.emptyReads == old(spi.emptyReads)
      invariant spi.Hardware().Filled(FlowOf(spi, n, ran)) == goal
      decreases left
    {
      FillsOn(spi.Hardware(), FlowOf(spi, n, ran));
      left, s, ran := PushAndPoll(spi, mem, job, t, len, left, ran);
    }
    FillsOn(spi.Hardware(), FlowOf(spi, n, ran));
  }

  /** Lines 1066-1086: read words while the RX FIFO has any. */
  method DrainRx(spi: Peripheral, mem: array<byte>, ghost job: Job, r: Option<nat>, len: nat, rxLen: nat,
                 ghost run: Run)
    returns (left: nat, ghost ran: Run)
    requires Streaming(spi, mem, job, run) && r == job.r && len == job.len
    requires rxLen == len - Covered(len, run.read)
    modifies spi, mem
    ensures Streaming(spi, mem, job, ran) && left == len - Covered(len, ran.read) && ran.leads == run.leads
    ensures run.read <= ran.read && spi.emptyReads == old(spi.emptyReads)
    ensures var was := old(FlowOf(spi, WordCount(len), run));
            FlowOf(spi, WordCount(len), ran) == spi.Hardware().Drained(spi.Hardware().Waited(was))
  {
    hide Streaming, Peripheral.Valid, Machine.Waited, Machine.Popped, Machine.Drained;
    left, ran := rxLen, run;
    ghost var n, start := WordCount(len), FlowOf(spi, WordCount(len), run);
    ghost var goal := spi.Hardware().Drained(spi.Hardware().Waited(start));
    var s := Poll(spi, mem, job, ran);
    while !s.rxEmpty && left > 0
      invariant Streaming(spi, mem, job, ran) && ran.leads == run.leads && run.read <= ran.read
      invariant left == len - Covered(len, ran.read) && s.rxEmpty == (spi.rx == [])
      invariant spi.Hardware().Drained(FlowOf(spi, n, ran)) == goal
      decreases left
    {
      DrainsOn(spi.Hardware(), FlowOf(spi, n, ran));
      left, s, ran := PopAndPoll(spi, mem, job, r, len, left, ran);
    }
    DrainsOn(spi.Hardware(), FlowOf(spi, n, ran));
  }

  /** Lines 1088-1108: read words while the hardware is idle, looking no more at RX_EMPTY. It
      underruns if words are still to be written then that would have been needed. */
  method DrainIdle(spi: Peripheral, mem: array<byte>, ghost job: Job, r: Option<nat>, len: nat, txLen: nat,
                   rxLen: nat, ghost run: Run)
    returns (underrun: bool, left: nat, ghost ran: Run)
    requires Streaming(spi, mem, job, run) && r == job.r && len == job.len
    requires rxLen == len - Covered(len, run.read) && txLen == len - Covered(len, |run.leads|)
    requires spi.emptyReads > 0 ==> run.read == WordCount(len)
    modifies spi, mem
    ensures Streaming(spi, mem, job, ran) && left == len - Covered(len, ran.read) && ran.leads == run.leads
    ensures underrun <==> old(spi.emptyReads) < spi.emptyReads
    ensures underrun ==> txLen > 0 && left == 0
    ensures spi.emptyReads > 0 ==> ran.read == WordCount(len)
    ensures var was := old(FlowOf(spi, WordCount(len), run));
            FlowOf(spi, WordCount(len), ran) == DrainedIdle(spi.Hardware(), spi.Hardware().Waited(was))
  {
    hide Streaming, Peripheral.Valid, Machine.Waited, Machine.Popped, DrainedIdle;
    underrun, left, ran := false, rxLen, run;
    ghost var n, start := WordCount(len), FlowOf(spi, WordCount(len), run);
    ghost var goal := DrainedIdle(spi.Hardware(), spi.Hardware().Waited(start));
    var s := Poll(spi, mem, job, ran);
    while !s.busy && left > 0
      invariant Streaming(spi, mem, job, ran) && ran.leads == run.leads && run.read <= ran.read
      invariant left == len - Covered(len, ran.read) && s.busy == (spi.tx != [] || spi.shift != [])
      invariant if underrun then !s.busy && txLen > 0 && run.read < n else ran.read == run.read || txLen == 0
      invariant ran.read == run.read ==> spi.emptyReads == old(spi.emptyReads)
      invariant DrainedIdle(spi.Hardware(), FlowOf(spi, n, ran)) == goal
      decreases left
    {
      DrainsIdleOn(spi.Hardware(), FlowOf(spi, n, ran));
      underrun := txLen > 0;
      left, s, ran := PopAndPoll(spi, mem, job, r, len, left, ran);
    }
    DrainsIdleOn(spi.Hardware(), FlowOf(spi, n, ran));
    Accounts(spi, mem, job, ran);
    if left == 0 {
      AllCovered(len, ran.read);
    }
  }

  /** One round of the outer loop. */
  method Round(spi: Peripheral, mem: array<byte>, ghost job: Job, t: Option<nat>, r: Option<nat>, len: nat,
               txLen: nat, rxLen: nat, ghost run: Run)
    returns (txLeft: nat, rxLeft: nat, underrun: bool, ghost ran: Run)
    requires Streaming(spi, mem, job, run) && t == job.t && r == job.r && len == job.len
    requires txLen == len - Covered(len, |run.leads|) && rxLen == len - Covered(len, run.read)
             && (txLen > 0 || rxLen > 0)
    requires spi.emptyReads > 0 ==> run.read == WordCount(len)
    modifies spi, mem
    ensures Streaming(spi, mem, job, ran)
    ensures txLeft == len - Covered(len, |ran.leads|) && rxLeft == len - Covered(len, ran.read)
    ensures underrun <==> old(spi.emptyReads) < spi.emptyReads
    ensures spi.emptyReads > 0 ==> ran.read == WordCount(len)
    ensures |run.leads| <= |ran.leads| && ran.leads == run.leads + Repeated(run.read, |ran.leads| - |run.leads|)
    ensures var was := old(FlowOf(spi, WordCount(len), run));
            FlowOf(spi, WordCount(len), ran) == AuxFlow.Round(spi.Hardware(), was)
  {
    hide Streaming, Peripheral.Valid, Machine.Waited, Machine.Filled, Machine.Drained, DrainedIdle;
    txLeft, ran := FillTx(spi, mem, job, t, len, txLen, run);
    rxLeft, ran := DrainRx(spi, mem, job, r, len, rxLen, ran);
    underrun, rxLeft, ran := DrainIdle(spi, mem, job, r, len, txLeft, rxLeft, ran);
  }

  /** The loops of lines 1044-1109. A run that is stuck is not followed any further: it
      stays so, by StuckStays. */
  method Pump(spi: Peripheral, mem: array<byte>, ghost job: Job, t: Option<nat>, r: Option<nat>, len: nat)
    returns (outcome: Outcome, ghost rounds: nat, ghost g: Flow, ghost run: Run)
    requires Streaming(spi, mem, job, Run([], 0, [])) && t == job.t && r == job.r && len == job.len
    requires FlowOf(spi, WordCount(len), Run([], 0, [])) == Start(WordCount(len), spi.patience, spi.clock)
    modifies spi, mem
    ensures Streaming(spi, mem, job, run) && run.read == WordCount(len)
    ensures if outcome.Returned? then |run.leads| == WordCount(len) else |run.leads| < WordCount(len)
    ensures outcome == Returned(false) <==> spi.emptyReads == 0
    ensures g.empty == spi.emptyReads && (if outcome.Spins? then Stuck(spi.Hardware(), g) else g.Finished())
    ensures Ongoing(spi.Hardware(), old(Start(WordCount(len), spi.patience, spi.clock)), WordCount(len), rounds, g,
            run.leads)
  {
    hide Streaming, Peripheral.Valid, AuxFlow.Round, Ongoing;
    var txLen, rxLen, underrun := len, len, false;
    ghost var n := WordCount(len);
    run, rounds := Run([], 0, []), 0;
    ghost var start := FlowOf(spi, n, run);
    StartReached(spi.Hardware(), n, spi.patience, spi.clock);
    while txLen > 0 || rxLen > 0
      invariant Streaming(spi, mem, job, run)
      invariant txLen == len - Covered(len, |run.leads|) && rxLen == len - Covered(len, run.read)
      invariant underrun <==> spi.emptyReads > 0
      invariant spi.emptyReads > 0 ==> run.read == n
      invariant Ongoing(spi.Hardware(), start, n, rounds, FlowOf(spi, n, run), run.leads)
      decreases n - |run.leads|, spi.Counts().Work(), n - run.read, spi.patience
    {
      OneMoreRound(spi.Hardware(), start, n, rounds, FlowOf(spi, n, run), run.leads);
      var missed;
      txLen, rxLen, missed, run := Round(spi, mem, job, t, r, len, txLen, rxLen, run);
      underrun, rounds := underrun || missed, rounds + 1;
      if txLen > 0 && rxLen == 0 && |spi.tx| == spi.depth && !spi.Enabled() {
        AllCovered(len, run.read);
        Accounts(spi, mem, job, run);
        return Spins, rounds, FlowOf(spi, n, run), run;
      }
    }
    AllCovered(len, run.read);
    AllCovered(len, |run.leads|);
    outcome, g := Returned(underrun), FlowOf(spi, n, run);
  }

  ghost method Begin(spi: Peripheral, mem: array<byte>, job: Job)
    requires spi.Idle() && job.Fits() && job.before == mem[..] && job.past == spi.wire
    modifies spi
    ensures Streaming(spi, mem, job, Run([], 0, []))
    ensures FlowOf(spi, WordCount(job.len), Run([], 0, [])) == old(Start(WordCount(job.len), spi.patience, spi.clock))
  {
    spi.Begin();
    Started(job, job.before);
  }

  lemma Started(job: Job, now: seq<byte>)
    requires job.Fits() && now == job.before
    ensures Filed(job, Run([], 0, []), [], [], now)
  {
    if job.r.Some? {
      assert now == Overlay(now, job.r.value, []);
    }
  }

  /** Byte i of the message has been run over by the reply before it is fetched. */
  predicate OverrunAt(t: Option<nat>, r: Option<nat>, len: nat, leads: seq<nat>, i: nat) {
    && t.Some? && r.Some? && i < len && i / 3 < |leads|
    && r.value <= t.value + i < r.value + Covered(len, leads[i / 3])
  }

  /** Where a byte that goes out comes from, in terms of memory before and after. */
  function Origin(before: seq<byte>, now: seq<byte>, t: Option<nat>, r: Option<nat>, len: nat, leads: seq<nat>,
                  i: nat): byte
    requires (t.Some? ==> t.value + len <= |before|) && i < len && |now| == |before|
  {
    if t.None? then 0
    else if OverrunAt(t, r, len, leads, i) then now[t.value + i]
    else before[t.value + i]
  }

  /** If nothing is run over, the message goes out as it was at the call. */
  lemma NothingOverrun(before: seq<byte>, now: seq<byte>, t: Option<nat>, r: Option<nat>, len: nat, leads: seq<nat>,
                       out: seq<byte>)
    requires (t.Some? ==> t.value + len <= |before|) && |now| == |before| && |out| == len
    requires forall i :: 0 <= i < len ==> out[i] == Origin(before, now, t, r, len, leads, i)
    requires forall i :: 0 <= i < len ==> !OverrunAt(t, r, len, leads, i)
    ensures out == BytesAt(before, t, 0, len)
  {
  }

  /** A null pointer sends zeros. */
  lemma NullSendsZeros(before: seq<byte>, now: seq<byte>, r: Option<nat>, len: nat, leads: seq<nat>, out: seq<byte>)
    requires |now| == |before| && |out| <= len
    requires forall i :: 0 <= i < |out| ==> out[i] == Origin(before, now, None, r, len, leads, i)
    ensures forall i :: 0 <= i < |out| ==> out[i] == 0
  {
  }

  /** The cases a caller will look at first. */
  lemma ClearAtLeast(before: seq<byte>, t: nat, r: Option<nat>, len: nat, depth: nat)
    requires t + len <= |before|
    ensures r.None? || len <= 3 * depth || t + len <= r.value ==> Clear(Some(t), r, len, depth)
    ensures BytesAt(before, Some(t), 0, len) == before[t..t + len]
  {
  }

  /** The first bytes of a receive buffer are the answers to the first bytes that went out,
      the rest comes from reads that found nothing. */
  ghost predicate Answered(slave: Slave, past: seq<byte>, out: seq<byte>, noise: Noise, buffer: seq<byte>, got: nat) {
    && got <= |out| && got <= |buffer| && buffer[..got] == Exchange(slave, past, out[..got])
    && forall i :: got <= i < |buffer| ==> FromNoise(noise, buffer[i])
  }

  /** The receive buffer once all reads are done: as many words as arrived are answers. */
  ghost predicate Replied(spi: Peripheral, mem: array<byte>, r: Option<nat>, len: nat, past: seq<byte>, out: seq<byte>)
    reads spi, mem
  {
    && spi.emptyReads <= WordCount(len) && (r.Some? ==> r.value + len <= mem.Length)
    && (r.Some? ==> Answered(spi.slave, past, out, spi.noise, mem[r.value..r.value + len],
                             Covered(len, WordCount(len) - spi.emptyReads)))
  }

  /** After an exchange without empty reads every byte of the buffer is the device's answer to
      the byte at the same place of what went out, given all bytes before it. */
  lemma RepliedMeans(spi: Peripheral, mem: array<byte>, r: nat, len: nat, past: seq<byte>, out: seq<byte>)
    requires Replied(spi, mem, Some(r), len, past, out) && spi.emptyReads == 0 && |out| == len
    ensures forall i :: r <= i < r + len ==> mem[i] == spi.slave(past + out[..i - r], out[i - r])
  {
    var buffer := mem[r..r + len];
    assert Covered(len, WordCount(len)) == len && out[..len] == out;
    forall i | r <= i < r + len ensures mem[i] == spi.slave(past + out[..i - r], out[i - r]) {
      ExchangeAt(spi.slave, past, out, i - r);
      assert buffer[..len][i - r] == mem[i];
    }
  }

  lemma FetchedFrom(job: Job, run: Run, pushed: seq<Word>, popped: seq<seq<byte>>, now: seq<byte>)
    requires Filed(job, run, pushed, popped, now) && run.read <= WordCount(job.len)
    ensures var out := Flatten(BytesOf(pushed));
            && |out| == Covered(job.len, |pushed|) && |now| == |job.before|
            && forall i :: 0 <= i < |out| ==> out[i] == Origin(job.before, now, job.t, job.r, job.len, run.leads, i)
  {
    WordsCarry(pushed, job.len);
    hide Flatten, BytesOf, Overlay, Origin, WellFramed;
    var out := Flatten(BytesOf(pushed));
    forall i | 0 <= i < |out| ensures out[i] == Origin(job.before, now, job.t, job.r, job.len, run.leads, i) {
      var c := pushed[i / 3].bytes;
      assert c == out[Covered(job.len, i / 3)..Covered(job.len, i / 3 + 1)];
      FetchedByte(job, run, now, c, i);
      ByteOfWord(out, job.len, i);
    }
  }

  lemma ByteOfWord(out: seq<byte>, len: nat, i: nat)
    requires i < |out| <= len && Covered(len, i / 3 + 1) <= |out|
    ensures out[Covered(len, i / 3)..Covered(len, i / 3 + 1)][i % 3] == out[i]
  {
  }

  lemma FetchedByte(job: Job, run: Run, now: seq<byte>, c: seq<byte>, i: nat)
    requires job.Fits() && i < job.len && i / 3 < |run.leads| && |run.stored| == Covered(job.len, run.read)
    requires run.leads[i / 3] <= run.read && now == job.Stored(run.stored)
    requires c == job.Fetched(run.stored, run.leads[i / 3], i / 3)
    ensures c[i % 3] == Origin(job.before, now, job.t, job.r, job.len, run.leads, i)
  {
    hide Job.Stored, OverrunAt;
    if job.t.Some? {
      var lead := Covered(job.len, run.leads[i / 3]);
      StoredThen(job, run.stored, lead, job.t.value + i);
      OverrunMeans(job, run.leads, i);
    }
  }

  lemma OverrunMeans(job: Job, leads: seq<nat>, i: nat)
    requires job.t.Some? && i < job.len && i / 3 < |leads|
    ensures OverrunAt(job.t, job.r, job.len, leads, i) <==>
              job.r.Some? && job.r.value <= job.t.value + i < job.r.value + Covered(job.len, leads[i / 3])
  {
  }

  /** A place once part of the reply is stored has the byte of the whole, if that part reaches it. */
  lemma StoredThen(job: Job, stored: seq<byte>, lead: nat, at: nat)
    requires job.Fits() && lead <= |stored| <= job.len && at < |job.before|
    ensures job.Stored(stored[..lead])[at] ==
              if job.r.Some? && job.r.value <= at < job.r.value + lead then job.Stored(stored)[at] else job.before[at]
  {
  }

  /** The words that arrived are in the receive buffer, and they are the answers to what went out. */
  lemma RepliesStored(spi: Peripheral, mem: array<byte>, job: Job, run: Run)
    requires Streaming(spi, mem, job, run) && run.read == WordCount(job.len) && job.r.Some?
    ensures mem.Length == |job.before| && |spi.popped| == WordCount(job.len) - spi.emptyReads
    ensures Answered(spi.slave, job.past, Flatten(BytesOf(spi.pushed)), spi.noise,
                     mem[job.r.value..job.r.value + job.len], Covered(job.len, |spi.popped|))
  {
    hide Exchange, Flatten, Answers, BytesOf, Overlay, FromNoise, WellFramed, Job.Fetched;
    var r, got := job.r.value, Covered(job.len, |spi.popped|);
    var read, unread := spi.sent[..|spi.popped|], spi.sent[|spi.popped|..];
    assert read + unread == spi.sent && spi.pushed[..|spi.popped|] == read;
    ArrivedWords(spi.slave, spi.past, read, unread, spi.popped, spi.rx);
    FirstWords(spi.pushed, |spi.popped|, job.len);
    OverlaySlice(job.before, r, run.stored);
    assert mem[r..r + job.len] == mem[..][r..r + job.len] == run.stored;
  }

  lemma FirstWords(words: seq<Word>, p: nat, len: nat)
    requires WellFramed(words, len) && p <= |words| <= WordCount(len)
    ensures var out := Flatten(BytesOf(words));
            Covered(len, p) <= |out| && Flatten(BytesOf(words[..p])) == out[..Covered(len, p)]
  {
    WordsCarry(words, len);
    WordsCarry(words[..p], len);
    hide Flatten, BytesOf, WellFramed;
    assert words[..p] + words[p..] == words;
    BytesOfSplit(words[..p], words[p..]);
    FlattenSplit(BytesOf(words[..p]), BytesOf(words[p..]));
  }

  lemma ArrivedWords(slave: Slave, past: seq<byte>, read: seq<Word>, unread: seq<Word>, popped: seq<seq<byte>>,
                     rx: seq<seq<byte>>)
    requires popped + rx == Answers(slave, past, BytesOf(read + unread)) && |popped| == |read|
    ensures Flatten(popped) == Exchange(slave, past, Flatten(BytesOf(read)))
  {
    hide Exchange, Flatten, BytesOf, Answers;
    BytesOfSplit(read, unread);
    AnswersSplit(slave, past, BytesOf(read), BytesOf(unread));
    var later := past + Flatten(BytesOf(read));
    SameStart(popped, rx, Answers(slave, past, BytesOf(read)), Answers(slave, later, BytesOf(unread)));
    AnswersFlatten(slave, past, BytesOf(read));
  }

  lemma SameStart<T>(a: seq<T>, b: seq<T>, c: seq<T>, d: seq<T>)
    requires a + b == c + d && |a| == |c|
    ensures a == c
  {
    assert a == (a + b)[..|a|] && c == (c + d)[..|c|];
  }

  /** The bytes of all words written are on the wire or on their way there. */
  lemma CommittedIs(spi: Peripheral)
    requires spi.Valid()
    ensures spi.Committed() == spi.past + Flatten(BytesOf(spi.pushed))
    ensures spi.tx == [] && spi.shift == [] ==> spi.wire == spi.Committed()
  {
    hide Flatten, Answers, BytesOf;
    assert spi.pushed == spi.sent + (spi.shift + spi.tx);
    BytesOfSplit(spi.sent, spi.shift + spi.tx);
    FlattenSplit(BytesOf(spi.sent), BytesOf(spi.shift + spi.tx));
    if spi.tx == [] && spi.shift == [] {
      assert spi.shift + spi.tx == [];
      NothingOnItsWay();
    }
  }

  lemma NothingOnItsWay()
    ensures Flatten(BytesOf([])) == []
  {
  }

  /** What a transfer has done when all its reads are done. */
  lemma Concluded(spi: Peripheral, mem: array<byte>, job: Job, run: Run) returns (out: seq<byte>)
    requires Streaming(spi, mem, job, run) && run.read == WordCount(job.len)
    ensures mem.Length == |job.before| && spi.Committed() == job.past + out && out == Flatten(BytesOf(spi.pushed))
    ensures forall i :: 0 <= i < mem.Length && (job.r.None? || !(job.r.value <= i < job.r.value + job.len)) ==>
              mem[i] == job.before[i]
    ensures WellFramed(spi.pushed, job.len) && |run.leads| == |spi.pushed| && |out| == Covered(job.len, |run.leads|)
    ensures |run.leads| == WordCount(job.len) ==> |out| == job.len && spi.pushed == Framed(out)
    ensures forall i :: 0 <= i < |out| ==> out[i] == Origin(job.before, mem[..], job.t, job.r, job.len, run.leads, i)
    ensures spi.emptyReads == 0 ==> forall i :: 0 <= i < |run.leads| ==> run.leads[i] <= i
    ensures |run.leads| == WordCount(job.len) && spi.emptyReads == 0 ==> spi.Idle() && spi.wire == job.past + out
    ensures spi.emptyReads <= WordCount(job.len)
    ensures Replied(spi, mem, job.r, job.len, job.past, out)
  {
    hide Flatten, BytesOf, Answers, Exchange, Framed, Noisy, WellFramed, Overlay, Origin, FromNoise, Job.Fetched;
    out := Flatten(BytesOf(spi.pushed));
    CommittedIs(spi);
    FetchedFrom(job, run, spi.pushed, spi.popped, mem[..]);
    if |run.leads| == WordCount(job.len) {
      FramedAs(spi.pushed, job.len);
    }
    if job.r.Some? {
      OverlayFrame(job.before, job.r.value, run.stored, mem[..]);
      RepliesStored(spi, mem, job, run);
    }
  }

  /** The reply cannot run over bytes still to be fetched: none is fetched after the first
      reply is stored, or the bytes that may be are out of its reach. */
  predicate Clear(t: Option<nat>, r: Option<nat>, len: nat, depth: nat) {
    || t.None? || r.None? || len <= 3 * depth
    || t.value + len <= r.value || r.value + len <= t.value + 3 * depth
  }

  /** The reply is stored behind the bytes still to be fetched, as long as it is no longer. */
  predicate Behind(t: Option<nat>, r: Option<nat>) {
    t.Some? && r.Some? && r.value <= t.value
  }

  lemma ClearStays(m: Machine, t: Option<nat>, r: Option<nat>, len: nat, patience: nat, clock: nat, leads: seq<nat>)
    requires 1 <= m.depth && LedBy(m, Start(WordCount(len), patience, clock), WordCount(len), leads)
    requires Clear(t, r, len, m.depth)
    ensures forall i :: 0 <= i < len ==> !OverrunAt(t, r, len, leads, i)
  {
    LateLeads(m, WordCount(len), patience, clock);
    hide Leads, Reached;
    LateIsClear(t, r, len, m.depth, leads);
  }

  lemma LateIsClear(t: Option<nat>, r: Option<nat>, len: nat, depth: nat, leads: seq<nat>)
    requires Clear(t, r, len, depth) && forall i :: 0 <= i < |leads| && leads[i] > 0 ==> i >= depth
    ensures forall i :: 0 <= i < len ==> !OverrunAt(t, r, len, leads, i)
  {
    forall i | 0 <= i < len && i / 3 < |leads| ensures leads[i / 3] == 0 || i >= 3 * depth {
      assert leads[i / 3] > 0 ==> i / 3 >= depth;
    }
  }

  lemma BehindStays(t: Option<nat>, r: Option<nat>, len: nat, leads: seq<nat>)
    requires Behind(t, r) && forall i :: 0 <= i < |leads| ==> leads[i] <= i
    ensures forall i :: 0 <= i < len ==> !OverrunAt(t, r, len, leads, i)
  {
    forall i | 0 <= i < len && i / 3 < |leads| ensures Covered(len, leads[i / 3]) <= i {
      assert leads[i / 3] <= i / 3;
    }
  }

  /** The message goes out as it was at the call, where nothing can run over it. */
  lemma AsAtCall(m: Machine, before: seq<byte>, now: seq<byte>, t: Option<nat>, r: Option<nat>, len: nat,
                 patience: nat, clock: nat, leads: seq<nat>, out: seq<byte>)
    requires 1 <= m.depth && LedBy(m, Start(WordCount(len), patience, clock), WordCount(len), leads)
    requires (t.Some? ==> t.value + len <= |before|) && |now| == |before| && |out| == len
    requires forall i :: 0 <= i < len ==> out[i] == Origin(before, now, t, r, len, leads, i)
    ensures Clear(t, r, len, m.depth) ==> out == BytesAt(before, t, 0, len)
    ensures Behind(t, r) && (forall i :: 0 <= i < |leads| ==> leads[i] <= i) ==> out == BytesAt(before, t, 0, len)
  {
    hide LedBy, OverrunAt, Origin, BytesAt, Clear, Behind;
    if Clear(t, r, len, m.depth) {
      ClearStays(m, t, r, len, patience, clock, leads);
      NothingOverrun(before, now, t, r, len, leads, out);
    }
    if Behind(t, r) && forall i :: 0 <= i < |leads| ==> leads[i] <= i {
      BehindStays(t, r, len, leads);
      NothingOverrun(before, now, t, r, len, leads, out);
    }
  }

  /** bcm2835_aux_spi_transfernb. The words that go out are the message, byte by byte as memory
      holds it when it is fetched, and the receive buffer gets the answers to what went out, as
      far as they arrived. In an underrun the last words read never arrived; after one, the
      transfer may never end. The counts decide which. */
  method TransferNb(spi: Peripheral, mem: array<byte>, t: Option<nat>, r: Option<nat>, len: nat)
    returns (outcome: Outcome, ghost out: seq<byte>, ghost leads: seq<nat>)
    requires spi.Idle()
    requires (t.Some? ==> t.value + len <= mem.Length) && (r.Some? ==> r.value + len <= mem.Length)
    modifies spi, mem
    ensures forall i :: 0 <= i < mem.Length && (r.None? || !(r.value <= i < r.value + len)) ==> mem[i] == old(mem[i])
    ensures WordCount(len) <= spi.depth ==> outcome == Returned(false)
    ensures outcome == Returned(false) <==> spi.emptyReads == 0
    ensures var f := old(Start(WordCount(len), spi.patience, spi.clock));
            && (outcome == Returned(false) <==> !Underruns(spi.Hardware(), f))
            && (outcome.Spins? <==> NeverEnds(spi.Hardware(), f))
            && (outcome.Spins? ==> WordCount(len) > 3 * spi.depth + 1)
            && LedBy(spi.Hardware(), f, WordCount(len), leads)
    ensures spi.Committed() == old(spi.wire) + out && out == Flatten(BytesOf(spi.pushed))
    ensures WellFramed(spi.pushed, len) && |leads| == |spi.pushed| && |out| == Covered(len, |leads|)
    ensures if outcome.Spins? then |out| < len else |out| == len && spi.pushed == Framed(out)
    ensures forall i :: 0 <= i < |out| ==> out[i] == Origin(old(mem[..]), mem[..], t, r, len, leads, i)
    ensures outcome == Returned(false) ==> spi.Idle() && spi.wire == old(spi.wire) + out
    ensures outcome.Returned? && Clear(t, r, len, spi.depth) ==> out == old(BytesAt(mem[..], t, 0, len))
    ensures outcome == Returned(false) && Behind(t, r) ==> out == old(BytesAt(mem[..], t, 0, len))
    ensures t.None? ==> forall i :: 0 <= i < |out| ==> out[i] == 0
    ensures outcome.Returned? && t.Some? && (r.None? || len <= 3 * spi.depth || t.value + len <= r.value) ==>
              out == old(mem[t.value..t.value + len])
    ensures spi.emptyReads <= WordCount(len)
    ensures Replied(spi, mem, r, len, old(spi.wire), out)
  {
    hide Streaming, WellFramed, Framed, Replied, Peripheral.Valid, Underruns, NeverEnds, LedBy, Origin, BytesAt,
      Clear, Behind, Ongoing;
    ghost var job := Job(mem[..], spi.wire, t, r, len);
    ghost var f := Start(WordCount(len), spi.patience, spi.clock);
    Begin(spi, mem, job);
    ghost var rounds, g, run;
    outcome, rounds, g, run := Pump(spi, mem, job, t, r, len);
    Decided(spi.Hardware(), f, WordCount(len), rounds, g, run.leads);
    leads := run.leads;
    out := Concluded(spi, mem, job, run);
    if outcome.Returned? {
      AsAtCall(spi.Hardware(), job.before, mem[..], t, r, len, old(spi.patience), old(spi.clock), leads, out);
    }
    if t.None? {
      NullSendsZeros(job.before, mem[..], r, len, leads, out);
    } else {
      ClearAtLeast(job.before, t.value, r, len, spi.depth);
      assert job.before[t.value..t.value + len] == old(mem[t.value..t.value + len]);
    }
  }

  /** In bytes: with FIFOs of depth words a transfer can be made to underrun exactly if it is
      longer than 3 * depth, and to run for ever exactly if it is longer than 9 * depth + 3. */
  lemma LengthLimits(depth: nat, len: nat, patience: nat, clock: nat)
    requires 1 <= depth
    ensures (exists plan: Plan :: Underruns(Machine(depth, plan), Start(WordCount(len), patience, clock))) <==>
            len > 3 * depth
    ensures (exists plan: Plan :: NeverEnds(Machine(depth, plan), Start(WordCount(len), patience, clock))) <==>
            len > 9 * depth + 3
  {
    WorstCases(depth, WordCount(len), patience, clock);
  }

  /** On FIFOs of four words that wait until TX is full, 13 bytes underrun, 39 bytes still come
      to an end, and 40 bytes never do. */
  lemma TooLong()
    ensures var m := Machine(4, WaitUntil(9, 4));
            && Underruns(m, Start(WordCount(13), 0, 0))
            && Underruns(m, Start(WordCount(39), 0, 0)) && !NeverEnds(m, Start(WordCount(39), 0, 0))
            && NeverEnds(m, Start(WordCount(40), 0, 0))
  {
    var m := Machine(4, WaitUntil(9, 4));
    WaitingIsWorst(m, 5, 0, 0);
    WaitingIsWorst(m, 13, 0, 0);
    WaitingIsWorst(m, 14, 0, 0);
  }

  /** Under this behaviour of the hardware some byte of the message is run over. */
  ghost predicate Overrun(m: Machine, t: nat, r: nat, len: nat, patience: nat, clock: nat)
    requires 1 <= m.depth
  {
    var leads := Leads(m, Start(WordCount(len), patience, clock), WordCount(len));
    exists i: nat :: OverrunAt(Some(t), Some(r), len, leads, i)
  }

  /** Some hardware lets the reply, or what is stored for it, run over bytes still to be fetched
      exactly if the receive buffer meets what lies behind the first FIFO's worth of words. */
  lemma OverrunExactly(depth: nat, t: nat, r: nat, len: nat, patience: nat, clock: nat)
    requires 1 <= depth
    ensures (exists plan: Plan :: Overrun(Machine(depth, plan), t, r, len, patience, clock))
       <==> !Clear(Some(t), Some(r), len, depth)
  {
    var n, f := WordCount(len), Start(WordCount(len), patience, clock);
    forall plan: Plan | Clear(Some(t), Some(r), len, depth)
      ensures !Overrun(Machine(depth, plan), t, r, len, patience, clock)
    {
      hide Leads;
      var m := Machine(depth, plan);
      ClearStays(m, Some(t), Some(r), len, patience, clock, Leads(m, f, n));
    }
    if !Clear(Some(t), Some(r), len, depth) {
      var plan := OverrunningPlan(depth, t, r, len, patience, clock);
      assert Overrun(Machine(depth, plan), t, r, len, patience, clock);
    }
  }

  lemma OverrunningPlan(depth: nat, t: nat, r: nat, len: nat, patience: nat, clock: nat) returns (plan: Plan)
    requires 1 <= depth && !Clear(Some(t), Some(r), len, depth)
    ensures Overrun(Machine(depth, plan), t, r, len, patience, clock)
  {
    hide Leads;
    var i := if r <= t + 3 * depth then 3 * depth else r - t;
    if i / 3 == depth {
      plan := WaitUntil(clock + 1 + 2 * depth, depth);
      WaitingLeads(Machine(depth, plan), WordCount(len), patience, clock);
    } else {
      plan := Steady(clock, depth);
      SteadyLeads(Machine(depth, plan), WordCount(len), patience, clock);
    }
    var leads := Leads(Machine(depth, plan), Start(WordCount(len), patience, clock), WordCount(len));
    assert OverrunAt(Some(t), Some(r), len, leads, i);
  }

  /** In all these cases the message is lost: with a device that answers 1s, and empty reads
      that give 1s, a message of zeros does not go out. */
  method Overwritten(spi: Peripheral, mem: array<byte>, t: nat, r: nat, len: nat)
    requires spi.Idle() && t + len <= mem.Length && r + len <= mem.Length
    requires Overrun(spi.Hardware(), t, r, len, spi.patience, spi.clock)
    requires (forall past, b :: spi.slave(past, b) == 0xff) && (forall at :: spi.noise(at) == 0xffffffff)
    requires forall i :: t <= i < t + len ==> mem[i] == 0
    modifies spi, mem
    ensures spi.Committed() != old(spi.wire) + old(mem[t..t + len])
  {
    hide Framed, WellFramed, Peripheral.Valid, Underruns, NeverEnds, Leads, Clear, Behind, Replied, Origin, OverrunAt;
    ghost var before, past := mem[..], spi.wire;
    ghost var expected := Leads(spi.Hardware(), Start(WordCount(len), spi.patience, spi.clock), WordCount(len));
    ghost var i: nat :| OverrunAt(Some(t), Some(r), len, expected, i);
    var outcome;
    ghost var out, leads;
    outcome, out, leads := TransferNb(spi, mem, Some(t), Some(r), len);
    OverrunOrigin(before, mem[..], t, r, len, leads, i);
    BufferOfOnes(spi, mem, r, len, past, out);
    assert |out| == len ==> out[i] == 0xff;
    assert before[t..t + len][i] == 0 && spi.Committed()[|past|..] == out;
  }

  lemma OverrunOrigin(before: seq<byte>, now: seq<byte>, t: nat, r: nat, len: nat, leads: seq<nat>, i: nat)
    requires OverrunAt(Some(t), Some(r), len, leads, i) && |now| == |before| && t + len <= |before|
    ensures i < len && r <= t + i < r + len && Origin(before, now, Some(t), Some(r), len, leads, i) == now[t + i]
  {
  }

  lemma BufferOfOnes(spi: Peripheral, mem: array<byte>, r: nat, len: nat, past: seq<byte>, out: seq<byte>)
    requires Replied(spi, mem, Some(r), len, past, out)
    requires (forall before, b :: spi.slave(before, b) == 0xff) && (forall at :: spi.noise(at) == 0xffffffff)
    ensures forall i :: r <= i < r + len ==> mem[i] == 0xff
  {
    forall i | r <= i < r + len ensures mem[i] == 0xff {
      AllOnes(spi.slave, past, out, spi.noise, mem[r..r + len], Covered(len, WordCount(len) - spi.emptyReads), i - r);
    }
  }

  lemma AllOnes(slave: Slave, past: seq<byte>, out: seq<byte>, noise: Noise, buffer: seq<byte>, got: nat, i: nat)
    requires Answered(slave, past, out, noise, buffer, got) && i < |buffer|
    requires forall before, b :: slave(before, b) == 0xff
    requires forall at :: noise(at) == 0xffffffff
    ensures buffer[i] == 0xff
  {
    if i < got {
      AnswerOfOnes(slave, past, out[..got], i);
      assert buffer[i] == buffer[..got][i];
    } else {
      assert FromNoise(noise, buffer[i]);
      assert Unpack(0xffffffff, 3) == [0xff, 0xff, 0xff];
    }
  }

  lemma AnswerOfOnes(slave: Slave, past: seq<byte>, sent: seq<byte>, i: nat)
    requires i < |sent| && forall before, b :: slave(before, b) == 0xff
    ensures Exchange(slave, past, sent)[i] == 0xff
  {
    var x, b := past + sent[..i], sent[i];
    assert slave(x, b) == 0xff;
    assert Exchange(slave, past, sent)[i] == slave(x, b);
  }

  /** bcm2835_aux_spi_transfern: the answers replace the message. */
  method TransferN(spi: Peripheral, mem: array<byte>, buf: nat, len: nat)
    returns (outcome: Outcome, ghost out: seq<byte>, ghost leads: seq<nat>)
    requires spi.Idle() && buf + len <= mem.Length
    modifies spi, mem
    ensures forall i :: 0 <= i < mem.Length && !(buf <= i < buf + len) ==> mem[i] == old(mem[i])
    ensures WordCount(len) <= spi.depth ==> outcome == Returned(false)
    ensures var f := old(Start(WordCount(len), spi.patience, spi.clock));
            && (outcome == Returned(false) <==> !Underruns(spi.Hardware(), f))
            && (outcome.Spins? <==> NeverEnds(spi.Hardware(), f))
            && LedBy(spi.Hardware(), f, WordCount(len), leads)
    ensures spi.Committed() == old(spi.wire) + out
    ensures if outcome.Spins? then |out| < len else |out| == len && spi.pushed == Framed(out)
    ensures forall i :: 0 <= i < |out| ==> out[i] == Origin(old(mem[..]), mem[..], Some(buf), Some(buf), len, leads, i)
    ensures outcome == Returned(false) ==>
              && spi.Idle() && spi.wire == old(spi.wire + mem[buf..buf + len])
              && mem[buf..buf + len] == Exchange(spi.slave, old(spi.wire), old(mem[buf..buf + len]))
    ensures outcome == Returned(false) ==>
              forall i :: buf <= i < buf + len ==>
                mem[i] == spi.slave(old(spi.wire) + out[..i - buf], out[i - buf]) && out[i - buf] == old(mem[i])
  {
    hide WellFramed, Framed, Exchange, Peripheral.Valid, Underruns, NeverEnds, LedBy, Origin, FromNoise;
    outcome, out, leads := TransferNb(spi, mem, Some(buf), Some(buf), len);
    if outcome == Returned(false) {
      assert Covered(len, WordCount(len)) == len && out[..len] == out;
      RepliedMeans(spi, mem, buf, len, old(spi.wire), out);
      assert out == old(mem[buf..buf + len]);
    }
  }

  /** Lines 988-989 with room in both FIFOs. */
  method AwaitRoom(spi: Peripheral)
    requires spi.Valid() && |spi.pushed| - |spi.popped| <= spi.depth
    modifies spi
    ensures spi.Valid() && |spi.tx| < spi.depth
    ensures spi.past == old(spi.past) && spi.pushed == old(spi.pushed) && spi.popped == old(spi.popped)
    ensures spi.emptyReads == old(spi.emptyReads)
  {
    var s := spi.ReadStat();
    while s.txFull
      invariant spi.Valid() && s.txFull == (|spi.tx| == spi.depth)
      invariant spi.past == old(spi.past) && spi.pushed == old(spi.pushed) && spi.popped == old(spi.popped)
      invariant spi.emptyReads == old(spi.emptyReads)
      decreases spi.Counts().Work(), spi.patience
    {
      s := spi.ReadStat();
    }
  }

  /** Lines 1008-1009: with room for its answer the word in flight gets through. */
  method AwaitIdle(spi: Peripheral)
    requires spi.Valid() && |spi.pushed| - |spi.popped| <= spi.depth
    modifies spi
    ensures spi.Valid() && spi.tx == [] && spi.shift == []
    ensures spi.past == old(spi.past) && spi.pushed == old(spi.pushed) && spi.popped == old(spi.popped)
    ensures spi.emptyReads == old(spi.emptyReads)
  {
    var s := spi.ReadStat();
    while s.busy
      invariant spi.Valid() && s.busy == (spi.tx != [] || spi.shift != [])
      invariant spi.past == old(spi.past) && spi.pushed == old(spi.pushed) && spi.popped == old(spi.popped)
      invariant spi.emptyReads == old(spi.emptyReads)
      decreases spi.Counts().Work(), spi.patience
    {
      s := spi.ReadStat();
    }
  }

  /** One round of lines 988-1011: a word goes out, and an answer is thrown away. */
  method WriteWord(spi: Peripheral, mem: array<byte>, t: Option<nat>, pos: nat, count: nat, last: bool)
    requires spi.Valid() && spi.Counts().Words() < spi.depth
    requires 1 <= count <= 3 && (t.Some? ==> t.value + pos + count <= mem.Length)
    modifies spi
    ensures spi.Valid() && spi.tx == [] && spi.shift == [] && |spi.rx| == old(spi.Counts().Words())
    ensures spi.past == old(spi.past) && spi.emptyReads == old(spi.emptyReads)
    ensures spi.pushed == old(spi.pushed) + [Word(BytesAt(mem[..], t, pos, count), last)]
  {
    AwaitRoom(spi);
    SendChunk(spi, mem, t, pos, count, last);
    AwaitIdle(spi);
    var _, _ := spi.ReadIo();
  }

  lemma SliceOfBytes(now: seq<byte>, t: Option<nat>, len: nat, pos: nat, n: nat)
    requires (t.Some? ==> t.value + len <= |now|) && pos + n <= len
    ensures BytesAt(now, t, 0, len)[pos..pos + n] == BytesAt(now, t, pos, n)
  {
    var a, b := BytesAt(now, t, 0, len)[pos..pos + n], BytesAt(now, t, pos, n);
    if t.Some? {
      assert forall i :: 0 <= i < n ==> a[i] == now[t.value + (pos + i)];
      assert forall i :: 0 <= i < n ==> b[i] == now[t.value + (pos + i)];
    }
    assert forall i :: 0 <= i < n ==> a[i] == b[i];
  }

  lemma NextWord(now: seq<byte>, t: Option<nat>, len: nat, k: nat)
    requires (t.Some? ==> t.value + len <= |now|) && k < WordCount(len)
    ensures var out, c := BytesAt(now, t, 0, len), BytesAt(now, t, 3 * k, Covered(len, k + 1) - 3 * k);
            && Framed(out)[..k + 1] == Framed(out)[..k] + [Word(c, k + 1 == WordCount(len))]
  {
    var out := BytesAt(now, t, 0, len);
    var n := |Chunk(out, k)|;
    ChunkIsSlice(out, k);
    SliceOfBytes(now, t, len, 3 * k, n);
    assert Framed(out)[k] == Word(BytesAt(now, t, 3 * k, n), k + 1 == WordCount(len));
  }

  lemma AllCovered(len: nat, k: nat)
    requires k <= WordCount(len) && Covered(len, k) == len
    ensures k == WordCount(len)
  {
  }

  /** Words written after others add their bytes to those that are bound for the wire. */
  lemma AllCommitted(spi: Peripheral, committed: seq<byte>, earlier: seq<Word>, out: seq<byte>)
    requires spi.Valid() && spi.pushed == earlier + Framed(out) && committed == spi.past + Flatten(BytesOf(earlier))
    ensures spi.Committed() == committed + out
    ensures spi.tx == [] && spi.shift == [] ==> spi.wire == committed + out
  {
    hide Flatten, Framed, BytesOf, Peripheral.Valid;
    CommittedIs(spi);
    BytesOfSplit(earlier, Framed(out));
    FlattenSplit(BytesOf(earlier), BytesOf(Framed(out)));
    FramedBytes(out);
    assert spi.past + (Flatten(BytesOf(earlier)) + out) == committed + out;
  }

  /** bcm2835_aux_spi_writenb. Words of earlier transfers may still be on their way out or
      wait to be read, as bcm2835_aux_spi_write leaves them; with as many of them as the FIFO
      holds it would wait for ever, by BusyForever. */
  method WriteNb(spi: Peripheral, mem: array<byte>, t: Option<nat>, len: nat)
    requires spi.Valid() && (t.Some? ==> t.value + len <= mem.Length)
    requires len > 0 ==> spi.Counts().Words() < spi.depth
    modifies spi
    ensures spi.Valid() && spi.Counts().Words() == old(spi.Counts().Words()) && spi.emptyReads == 0
    ensures spi.Committed() == old(spi.Committed()) + BytesAt(mem[..], t, 0, len)
    ensures t.Some? ==> spi.Committed() == old(spi.Committed()) + mem[t.value..t.value + len]
    ensures t.None? ==> spi.Committed() == old(spi.Committed()) + seq(len, _ => 0)
    ensures len > 0 ==> spi.tx == [] && spi.shift == [] && spi.wire == spi.Committed()
    ensures |spi.pushed| == old(spi.Counts().Words()) + WordCount(len)
    ensures spi.pushed[old(spi.Counts().Words())..] == Framed(BytesAt(mem[..], t, 0, len))
  {
    hide Peripheral.Valid, Framed, BytesOf, Flatten;
    ghost var out := BytesAt(mem[..], t, 0, len);
    ghost var k := 0;
    var txLen := len;
    spi.Begin();
    ghost var earlier := spi.pushed;
    assert earlier + Framed(out)[..0] == earlier;
    while txLen > 0
      invariant k <= WordCount(len) && txLen == len - Covered(len, k)
      invariant spi.Valid() && spi.Counts().Words() == old(spi.Counts().Words()) && spi.emptyReads == 0
      invariant k > 0 ==> spi.tx == [] && spi.shift == []
      invariant old(spi.Committed()) == spi.past + Flatten(BytesOf(earlier)) && spi.pushed == earlier + Framed(out)[..k]
      decreases txLen
    {
      var count := if txLen < 3 then txLen else 3;
      NextWord(mem[..], t, len, k);
      WriteWord(spi, mem, t, len - txLen, count, txLen == count);
      txLen, k := txLen - count, k + 1;
    }
    AllCovered(len, k);
    assert |Framed(out)| == k && Framed(out)[..k] == Framed(out);
    AllCommitted(spi, old(spi.Committed()), earlier, out);
  }
}
