/** The 64-bit system timer, read as two 32-bit halves while it keeps counting. */
module SystemTimer {
  import opened Arithmetic

  /** The value put together from the halves: high, low, high again, and low again if the
      high half has changed in between. */
  function Assembled(high: nat, low: nat, again: nat, lowAgain: nat): nat {
    if again == high then again * WORD32 + low else again * WORD32 + lowAgain
  }

  /** Whenever the four halves are read from a counter that does not run backwards, the
      result is a value the counter went through between the first read and the last:
      with equal high halves exactly the value at the read of low, otherwise not before
      the first read and not after the last. No bound on the time between reads is needed. */
  lemma Linearizable(c1: nat, c2: nat, c3: nat, c4: nat)
    requires c1 <= c2 <= c3 <= c4
    ensures var st := Assembled(c1 / 0x1_0000_0000, c2 % 0x1_0000_0000, c3 / 0x1_0000_0000, c4 % 0x1_0000_0000);
            && c1 <= st <= c4
            && (c1 / 0x1_0000_0000 == c3 / 0x1_0000_0000 ==> st == c2)
  {
    if c1 / WORD32 == c3 / WORD32 {
      HighBetween(c1, c2, c3);
    }
  }

  lemma HighBetween(c1: nat, c2: nat, c3: nat)
    requires c1 <= c2 <= c3 && c1 / WORD32 == c3 / WORD32
    ensures c2 / WORD32 == c1 / WORD32
  {
  }

  /** The same for the 32-bit registers of a count that fits 64 bits. */
  lemma RegistersMeet(c1: nat, c2: nat, c3: nat, c4: nat)
    requires c1 <= c2 <= c3 <= c4 < WORD64
    ensures c1 <= Assembled(c1 / WORD32 % WORD32, c2 % WORD32, c3 / WORD32 % WORD32, c4 % WORD32) <= c4
  {
    Linearizable(c1, c2, c3, c4);
    assert c1 / WORD32 < WORD32 && c3 / WORD32 < WORD32;
  }

  /** A count between those of two instants was reached at an instant between them. */
  ghost function InstantOf(t1: nat, t4: nat, st: nat, perMicro: nat): (at: nat)
    requires t1 <= t4 && 1 <= perMicro && t1 / perMicro <= st <= t4 / perMicro
    ensures t1 <= at <= t4 && at / perMicro == st
  {
    DivReaches(t4, perMicro, st);
    if st * perMicro < t1 then
      DivReaches(t1, perMicro, st);
      t1
    else
      DivUnique(st * perMicro, perMicro, st);
      st * perMicro
  }

  lemma CountsInOrder(t1: nat, t2: nat, t3: nat, t4: nat, end: nat, perMicro: nat)
    requires t1 <= t2 <= t3 <= t4 <= end < WORD64 * perMicro && 1 <= perMicro
    ensures t1 / perMicro <= t2 / perMicro <= t3 / perMicro <= t4 / perMicro < WORD64
  {
    DivMonotone(t1, t2, perMicro);
    DivMonotone(t2, t3, perMicro);
    DivMonotone(t3, t4, perMicro);
    DivReaches(t4, perMicro, WORD64);
  }

  lemma LaterCount(at: nat, pause: nat, later: nat, perMicro: nat)
    requires 1 <= perMicro && at + pause <= later
    ensures later / perMicro >= at / perMicro + pause / perMicro >= at / perMicro
  {
    DivMonotone(at + pause, later, perMicro);
    DivSum(at, pause, perMicro);
  }

  class Clock {
    const perMicro: nat     // ticks of time per count of the timer
    const least: nat        // a register access takes at least this many ticks
    const most: nat         // and at most this many
    const mapped: bool      // whether the peripheral is mapped at all

    var now: nat

    predicate Sound()
    {
      1 <= perMicro && least <= most
    }

    constructor (perMicro: nat, least: nat, most: nat, mapped: bool, start: nat)
      requires 1 <= perMicro && least <= most
      ensures Sound() && now == start
      ensures this.perMicro == perMicro && this.least == least && this.most == most && this.mapped == mapped
    {
      this.perMicro, this.least, this.most, this.mapped, now := perMicro, least, most, mapped, start;
    }

    /** The timer's count. */
    function Count(): nat
      requires Sound()
      reads this
    {
      now / perMicro
    }

    /** Time passes during an access; what is read is what was there when it began. */
    method Tick()
      requires Sound()
      modifies this
      ensures old(now) + least <= now <= old(now) + most
    {
      var d :| least <= d <= most;
      now := now + d;
    }

    method ReadHigh() returns (w: nat)
      requires Sound()
      modifies this
      ensures old(now) + least <= now <= old(now) + most
      ensures w == old(Count()) / 0x1_0000_0000 % 0x1_0000_0000
    {
      w := Count() / WORD32 % WORD32;
      Tick();
    }

    method ReadLow() returns (w: nat)
      requires Sound()
      modifies this
      ensures old(now) + least <= now <= old(now) + most
      ensures w == old(Count()) % 0x1_0000_0000
    {
      w := Count() % WORD32;
      Tick();
    }

    /** bcm2835_st_read: the count at some instant `at` during the call, as long as the
        64-bit count does not wrap. */
    method StRead() returns (st: nat, ghost at: nat)
      requires Sound()
      modifies this
      ensures old(now) <= at <= now <= old(now) + 4 * most
      ensures mapped ==> old(now) + 3 * least <= now
      ensures !mapped ==> st == 0
      ensures mapped && now < 0x1_0000_0000_0000_0000 * perMicro ==> st == at / perMicro
    {
      at := now;
      if !mapped {
        return 0, now;
      }
      ghost var t1 := now;
      var hi := ReadHigh();
      ghost var t2 := now;
      var lo := ReadLow();
      ghost var t3 := now;
      st := ReadHigh();
      ghost var t4 := now;
      if st == hi {
        st := st * WORD32 + lo;
      } else {
        var lowAgain := ReadLow();
        st := st * WORD32 + lowAgain;
      }
      if now < WORD64 * perMicro {
        CountsInOrder(t1, t2, t3, t4, now, perMicro);
        RegistersMeet(t1 / perMicro, t2 / perMicro, t3 / perMicro, t4 / perMicro);
        at := InstantOf(t1, t4, st, perMicro);
      }
    }

    /** Any time passes between two calls. */
    method Pause(d: nat)
      requires Sound()
      modifies this
      ensures now == old(now) + d
    {
      now := now + d;
    }

    /** Successive reads never decrease, and a later one is ahead by the time between them. */
    method ReadTwice(pause: nat) returns (first: nat, second: nat)
      requires Sound()
      modifies this
      ensures now < WORD64 * perMicro ==> first <= second
      ensures mapped && now < WORD64 * perMicro ==> second >= first + pause / perMicro
    {
      ghost var at, later;
      first, at := StRead();
      Pause(pause);
      second, later := StRead();
      LaterCount(at, pause, later, perMicro);
    }

    /** bcm2835_st_delay: it returns when the timer has reached the sum, computed in 64 bits,
        and if it had to wait at all then at most two reads late. Without the timer, which
        then always reads 0, it returns for the sum 0 only. */
    method StDelay(offset: nat, micros: nat)
      requires Sound() && 1 <= least && (mapped || (offset + micros) % WORD64 == 0)
      requires var compare := (offset + micros) % WORD64;
               mapped ==> now + 4 * most < WORD64 * perMicro && compare * perMicro + 8 * most < WORD64 * perMicro
      modifies this
      ensures Count() >= (offset + micros) % 0x1_0000_0000_0000_0000
      ensures mapped && offset + micros < WORD64 ==> Count() >= offset + micros
      ensures now <= old(now) + 4 * most || now <= (offset + micros) % WORD64 * perMicro + 8 * most
    {
      var compare := (offset + micros) % WORD64;
      ghost var goal := compare * perMicro;
      var st, at := StRead();
      DivReaches(at, perMicro, compare);
      while st < compare
        invariant old(now) <= at <= now && (mapped || compare == 0)
        invariant now <= old(now) + 4 * most || now <= goal + 8 * most
        invariant now <= at + 4 * most && (mapped ==> st == at / perMicro)
        invariant st < compare <==> at < goal
        decreases goal + 4 * most - now
      {
        st, at := StRead();
        DivReaches(at, perMicro, compare);
      }
      DivMonotone(at, now, perMicro);
    }
  }
}
