/** Sampling and decoding a DHT11 over a GPIO line: bounded polling, pulse widths measured
    with the system timer, and the bytes of the frame. Line numbers are those of dht11.c. */
module Dht11 {
  import opened Arithmetic
  import opened Frame
  import opened SystemTimer

  const POLLS: nat := 2000
  const THRESHOLD_US: int := 50

  /** The line as it is over time, and the clock that every access to it takes time on. */
  class Line {
    const clock: Clock
    const level: nat -> bool
    const pause: nat       // a delay of one microsecond takes at most this many ticks
    var polls: nat

    constructor (clock: Clock, level: nat -> bool, pause: nat)
      ensures this.clock == clock && this.level == level && this.pause == pause && polls == 0
    {
      this.clock, this.level, this.pause, polls := clock, level, pause, 0;
    }

    /** bcm2835_gpio_lev: 1 for high, 0 for low. */
    method GpioLev() returns (v: int)
      requires clock.Sound()
      modifies this, clock
      ensures v == if level(old(clock.now)) then 1 else 0
      ensures old(clock.now) + clock.least <= clock.now <= old(clock.now) + clock.most
      ensures polls == old(polls) + 1
    {
      v := if level(clock.now) then 1 else 0;
      clock.Tick();
      polls := polls + 1;
    }

    method Delay()
      modifies clock
      ensures old(clock.now) <= clock.now <= old(clock.now) + pause
    {
      var d :| 0 <= d <= pause;
      clock.now := clock.now + d;
    }

    /** The latest that noticing an edge and time-stamping it, with a delay, can be. */
    function Slack(): nat {
      6 * clock.most + pause
    }

    /** The line keeps away from level v until x and then stays at v for more than one access. */
    ghost predicate TurnsTo(v: int, start: nat, x: nat) {
      && start <= x <= start + 1998 * clock.least
      && (forall t: nat :: start <= t < x ==> level(t) == (v != 1))
      && (forall t: nat :: x <= t <= x + clock.most ==> level(t) == (v == 1))
    }

    /** The polling loops of lines 55-58, 62-65 and 67-70. On any line at all they end after
        1999 polls; if the line turns to v at x within that, they notice within one access. */
    method WaitFor(v: int, ghost x: nat) returns (ghost hit: nat)
      requires clock.Sound() && (v == 0 || v == 1)
      modifies this, clock
      ensures polls <= old(polls) + 1999 && clock.now >= old(clock.now)
      ensures TurnsTo(v, old(clock.now), x) ==> x <= hit <= x + clock.most && hit <= clock.now <= hit + clock.most
    {
      ghost var start, timed := clock.now, TurnsTo(v, clock.now, x);
      hit := clock.now;
      var i := 1;
      while i < POLLS
        invariant 1 <= i <= POLLS && polls == old(polls) + i - 1 && clock.now >= start
        invariant timed ==> clock.now <= x + clock.most && start + (i - 1) * clock.least <= clock.now
        invariant timed && i > 1 ==> start + (i - 2) * clock.least < x
      {
        hit := clock.now;
        var lev := GpioLev();
        if lev == v {
          return;
        }
        assert i * clock.least == (i - 1) * clock.least + clock.least;
        i := i + 1;
      }
    }
  }

  const MAX_INT: nat := 0x7FFF_FFFF

  /** The conversion of a 64-bit difference to int. */
  function ToInt(later: nat, earlier: nat): int {
    var difference := (later - earlier) % WORD64 % WORD32;
    if difference < WORD32 / 2 then difference else difference - WORD32
  }

  lemma ToIntExact(later: nat, earlier: nat)
    requires earlier <= later < WORD64 && later - earlier <= MAX_INT
    ensures ToInt(later, earlier) == later - earlier
  {
  }

  // ----- one pulse -----

  /** A high pulse from rise to fall with low on both sides, every level outlasting the
      slack, none outlasting the polls, and time not running out. */
  ghost predicate PulseAhead(line: Line, start: nat, rise: nat, fall: nat, next: nat) {
    var clock := line.clock;
    && clock.Sound() && clock.mapped
    && line.TurnsTo(1, start, rise) && rise + line.Slack() < fall
    && (forall t: nat :: rise <= t < fall ==> line.level(t))
    && fall <= rise + 1998 * clock.least
    && fall + line.Slack() < next
    && (forall t: nat :: fall <= t < next ==> !line.level(t))
    && next < WORD64 * clock.perMicro
    && fall - rise + line.Slack() <= MAX_INT * clock.perMicro
  }

  /** How the classification of a pulse depends on its width. */
  ghost predicate Classified(line: Line, width: nat, micros: int) {
    && (width + line.Slack() <= 50 * line.clock.perMicro ==> micros <= 50)
    && (51 * line.clock.perMicro + line.Slack() <= width ==> micros > 50)
  }

  /** Lines 62-72: the width of the next high pulse as the driver measures it. */
  method Pulse(line: Line, ghost rise: nat, ghost fall: nat, ghost next: nat) returns (micros: int)
    requires line.clock.Sound()
    modifies line, line.clock
    ensures line.polls <= old(line.polls) + 2 * 1999 && line.clock.now >= old(line.clock.now)
    ensures PulseAhead(line, old(line.clock.now), rise, fall, next) ==>
              && fall <= line.clock.now <= fall + line.Slack()
              && Classified(line, fall - rise, micros)
  {
    hide ToInt, Classified;
    ghost var start, clock := line.clock.now, line.clock;
    ghost var hit := line.WaitFor(1, rise);
    var t, at := line.clock.StRead();
    ghost var risen := clock.now;
    hit := line.WaitFor(0, fall);
    var later, at' := line.clock.StRead();
    micros := ToInt(later, t);
    if PulseAhead(line, start, rise, fall, next) {
      assert line.TurnsTo(0, risen, fall);
      Measured(line, rise, fall, at, at', micros);
    }
  }

  /** With both time stamps within the slack of their edges the classification is right. */
  lemma Measured(line: Line, rise: nat, fall: nat, at: nat, at': nat, micros: int)
    requires line.clock.Sound() && rise <= at <= rise + line.Slack() && fall <= at' <= fall + line.Slack()
    requires rise + line.Slack() < fall && fall - rise + line.Slack() <= MAX_INT * line.clock.perMicro
    requires at' < WORD64 * line.clock.perMicro
    requires micros == ToInt(at' / line.clock.perMicro, at / line.clock.perMicro)
    ensures Classified(line, fall - rise, micros)
  {
    hide ToInt;
    var r := line.clock.perMicro;
    DivMonotone(at, at', r);
    NoLater(at, at', r, MAX_INT);
    DivReaches(at', r, WORD64);
    ToIntExact(at' / r, at / r);
    if at' <= at + THRESHOLD_US * r {
      NoLater(at, at', r, THRESHOLD_US);
    }
    if at + (THRESHOLD_US + 1) * r <= at' {
      DivMonotone(at + (THRESHOLD_US + 1) * r, at', r);
      DivShift(at, r, THRESHOLD_US + 1);
    }
  }

  lemma NoLater(at: nat, at': nat, r: nat, k: nat)
    requires 1 <= r && at' <= at + k * r
    ensures at' / r <= at / r + k
  {
    DivMonotone(at', at + k * r, r);
    DivShift(at, r, k);
  }

  // ----- a whole transmission -----

  const PULSES: nat := 41

  /** The edges of a transmission: the line falls at e[0], rises at e[1], falls at e[2] and
      so on; pulse j is high from e[2j + 1] to e[2j + 2]. Every level outlasts the slack and
      no level that has to be waited out lasts longer than the polls or an int can count. */
  ghost predicate Waveform(line: Line, start: nat, e: seq<nat>) {
    && line.clock.Sound() && line.clock.mapped
    && |e| == 2 * PULSES + 2
    && line.TurnsTo(0, start, e[0])
    && (forall k :: 0 <= k < 2 * PULSES + 1 ==> Level(line, e, k))
    && e[2 * PULSES + 1] < WORD64 * line.clock.perMicro
  }

  ghost predicate Level(line: Line, e: seq<nat>, k: nat)
    requires k + 1 < |e|
  {
    && e[k] + line.Slack() < e[k + 1]
    && (k + 2 < |e| ==> e[k + 1] <= e[k] + 1998 * line.clock.least
                        && e[k + 1] - e[k] + line.Slack() <= MAX_INT * line.clock.perMicro)
    && (forall t: nat :: e[k] <= t < e[k + 1] ==> line.level(t) == (k % 2 == 1))
  }

  function Width(e: seq<nat>, j: nat): int
    requires 2 * j + 2 < |e|
  {
    var fall: int := e[2 * j + 2];
    fall - e[2 * j + 1]
  }

  /** Pulses 1 to 40 carry the bits: short for 0 and long for 1, with a margin of the slack. */
  ghost predicate Carries(line: Line, e: seq<nat>, bits: Bits)
    requires |e| == 2 * PULSES + 2
  {
    forall j :: 1 <= j < PULSES ==>
      if bits[j - 1] == 0 then Width(e, j) + line.Slack() <= 50 * line.clock.perMicro
      else 51 * line.clock.perMicro + line.Slack() <= Width(e, j)
  }

  /** A transmission of the bits, after the line has been released at start. */
  ghost predicate Transmits(line: Line, start: nat, e: seq<nat>, bits: Bits) {
    Waveform(line, start, e) && Carries(line, e, bits)
  }

  lemma LastLevelLong(line: Line, start: nat, e: seq<nat>, j: nat)
    requires Waveform(line, start, e) && j <= PULSES
    ensures e[2 * j] < WORD64 * line.clock.perMicro
    decreases PULSES - j
  {
    assert Level(line, e, 2 * j);
    if j < PULSES {
      assert Level(line, e, 2 * j + 1);
      LastLevelLong(line, start, e, j + 1);
    }
  }

  lemma NextPulse(line: Line, start: nat, e: seq<nat>, j: nat, now: nat)
    requires Waveform(line, start, e) && j < PULSES && e[2 * j] <= now <= e[2 * j] + line.Slack()
    ensures PulseAhead(line, now, e[2 * j + 1], e[2 * j + 2], e[2 * j + 3])
  {
    assert Level(line, e, 2 * j) && Level(line, e, 2 * j + 1) && Level(line, e, 2 * j + 2);
    if j + 1 < PULSES {
      LastLevelLong(line, start, e, j + 2);
      assert Level(line, e, 2 * j + 3);
    }
  }

  lemma BitOfPulse(line: Line, e: seq<nat>, bits: Bits, j: nat, micros: int)
    requires |e| == 2 * PULSES + 2 && Carries(line, e, bits) && 1 <= j < PULSES
    requires Width(e, j) >= 0 && Classified(line, Width(e, j), micros)
    ensures bits[j - 1] == if micros > 50 then 1 else 0
  {
  }

  class Sensor {
    var humidity: int
    var temperature: int
    const buf: array<int>
    const tbuf: array<int>
    var byte1: int
    var byte2: int
    var byte3: int
    var byte4: int
    var byte5: int

    ghost predicate Valid() {
      buf.Length == PULSES && tbuf.Length == PULSES && buf != tbuf
    }

    constructor ()
      ensures Valid() && fresh(buf) && fresh(tbuf)
    {
      buf, tbuf := new int[PULSES](_ => 0), new int[PULSES](_ => 0);
      humidity, temperature, byte1, byte2, byte3, byte4, byte5 := 0, 0, 0, 0, 0, 0, 0;
    }

    /** The bits of the last sampling. */
    function Sampled(): (bits: seq<int>)
      requires Valid()
      reads buf
      ensures |bits| == 40
    {
      buf[1..]
    }

    /** Lines 55-74. On any line sampling takes at most 83 * 1999 polls and leaves zeros and
        ones; a transmission leaves its bits. */
    method Sample(line: Line, ghost e: seq<nat>, ghost bits: Bits)
      requires Valid() && line.clock.Sound()
      modifies buf, tbuf, line, line.clock
      ensures line.polls <= old(line.polls) + 83 * 1999
      ensures AllBits(Sampled())
      ensures forall j :: 0 <= j < PULSES ==> buf[j] == if tbuf[j] > 50 then 1 else 0
      ensures Transmits(line, old(line.clock.now), e, bits) ==> Sampled() == bits
    {
      ghost var start := line.clock.now;
      ghost var good := Transmits(line, start, e, bits);
      ghost var hit := line.WaitFor(0, if good then e[0] else start);
      line.Delay();
      for j := 0 to PULSES
        invariant line.polls <= old(line.polls) + (1 + 2 * j) * (POLLS - 1)
        invariant forall i :: 0 <= i < j ==> buf[i] == if tbuf[i] > THRESHOLD_US then 1 else 0
        invariant good ==> e[2 * j] <= line.clock.now <= e[2 * j] + line.Slack()
        invariant good ==> forall i :: 1 <= i < j ==> buf[i] == bits[i - 1]
      {
        ghost var now := line.clock.now;
        if good {
          NextPulse(line, start, e, j, now);
        }
        var micros := Pulse(line, if good then e[2 * j + 1] else 0, if good then e[2 * j + 2] else 0,
          if good then e[2 * j + 3] else 0);
        if good && j > 0 {
          BitOfPulse(line, e, bits, j, micros);
        }
        tbuf[j] := micros;
        buf[j] := if tbuf[j] > THRESHOLD_US then 1 else 0;
      }
    }

    /** dht11_get_byte: byte b, counted from 1, of the sampled bits. */
    method GetByte(b: nat) returns (result: Octet)
      requires Valid() && AllBits(Sampled()) && 1 <= b <= 5
      ensures result == ByteAt(Sampled(), b - 1)
    {
      hide ValueOf;
      var first := (b - 1) * 8 + 1;
      result := 0;
      ghost var s := Sampled()[8 * (b - 1)..8 * (b - 1) + 8];
      NoValue(s);
      for i := first to first + 8
        invariant result == ValueOf(s[..i - first])
      {
        PrefixIsByte(s, i - first);
        result := result * 2 % 256 + buf[i];
      }
      assert s[..8] == s;
    }

    /** Lines 76-99: the bytes, the checksum test and the readings. */
    method Decode() returns (status: int)
      requires Valid() && AllBits(Sampled())
      modifies `humidity, `temperature, `byte1, `byte2, `byte3, `byte4, `byte5
      ensures var f := BytesOf(Sampled());
              && (status == 0 || status == -1) && (status == 0 <==> Consistent(f))
              && [byte1, byte2, byte4, byte5] == [f[0], f[1], f[3], f[4]]
              && byte3 == (if Consistent(f) then f[2] % 128 else f[2])
              && humidity == (if Consistent(f) then Humidity(f) else old(humidity))
              && temperature == (if Consistent(f) then Temperature(f) else old(temperature))
      ensures var f := BytesOf(Sampled());
              && (status == 0 <==> f[4] == (f[0] + f[1] + f[2] + f[3]) % 256)
              && (status == 0 ==>
                    && humidity == 100 * f[0] + 10 * f[1]
                    && temperature == if f[2] < 128 then 100 * f[2] + 10 * f[3] else -(100 * (f[2] - 128) + 10 * f[3]))
    {
      hide ByteAt, Consistent, Humidity, Temperature;
      FrameMeans(BytesOf(Sampled()));
      byte1 := GetByte(1);
      byte2 := GetByte(2);
      byte3 := GetByte(3);
      byte4 := GetByte(4);
      byte5 := GetByte(5);
      if byte5 == (byte1 + byte2 + byte3 + byte4) % 256 {
        humidity := byte1 * 100 + byte2 * 10;
        var neg := byte3 / 128 * 128;
        byte3 := byte3 % 128;
        temperature := byte3 * 100 + byte4 * 10;
        if neg > 0 {
          temperature := -temperature;
        }
        return 0;
      }
      return -1;
    }

    /** dht11_get_data. Whatever the frame, a transmission of it is read correctly under any
        jitter within the slack; the frame is accepted exactly if its checksum is right. */
    method GetData(line: Line, ghost e: seq<nat>, ghost frame: Bytes) returns (status: int, ghost released: nat)
      requires Valid() && line.clock.Sound()
      modifies this, buf, tbuf, line, line.clock
      ensures released >= old(line.clock.now) && line.polls <= old(line.polls) + 83 * 1999
      ensures AllBits(Sampled()) && (status == 0 <==> Consistent(BytesOf(Sampled())))
      ensures status == 0 ==> humidity == Humidity(BytesOf(Sampled())) && temperature == Temperature(BytesOf(Sampled()))
      ensures var f := BytesOf(Sampled());
              && [byte1, byte2, byte4, byte5] == [f[0], f[1], f[3], f[4]]
              && byte3 == (if status == 0 then f[2] % 128 else f[2])
      ensures Transmits(line, released, e, FrameBits(frame)) ==>
                && BytesOf(Sampled()) == frame && (status == 0 <==> Consistent(frame))
                && (status == 0 ==> humidity == Humidity(frame) && temperature == Temperature(frame))
                && (status == 0 <==> frame[4] == (frame[0] + frame[1] + frame[2] + frame[3]) % 256)
                && (status == 0 ==>
                      && humidity == 100 * frame[0] + 10 * frame[1]
                      && temperature == if frame[2] < 128 then 100 * frame[2] + 10 * frame[3]
                                        else -(100 * (frame[2] - 128) + 10 * frame[3]))
    {
      var host :| 0 <= host;
      line.clock.now := line.clock.now + host;
      released := line.clock.now;
      Sample(line, e, FrameBits(frame));
      FrameRoundTrip(frame);
      status := Decode();
      FrameMeans(frame);
    }
  }

  lemma NoValue(s: seq<int>)
    ensures ValueOf(s[..0]) == 0
  {
  }

  lemma PrefixIsByte(s: seq<int>, i: nat)
    requires |s| == 8 && i < 8 && AllBits(s)
    ensures 0 <= ValueOf(s[..i]) < 128 && 0 <= ValueOf(s[..i + 1]) < 256
    ensures ValueOf(s[..i + 1]) == 2 * ValueOf(s[..i]) + s[i]
  {
    assert s[..i + 1] == s[..i] + [s[i]];
    ValueOneMore(s[..i], s[i]);
    PrefixBelow(s, i);
    PrefixBelow(s, i + 1);
    TwoToSmall(i);
  }

  lemma TwoToSmall(i: nat)
    requires i < 8
    ensures TwoTo(i) <= 128 && TwoTo(i + 1) <= 256
    decreases 8 - i
  {
    if i < 7 {
      TwoToSmall(i + 1);
    } else {
      assert TwoTo(4) == 16;
      assert TwoTo(6) == 64;
    }
  }

  lemma {:induction false} PrefixBelow(s: seq<int>, i: nat)
    requires i <= |s| && AllBits(s)
    ensures 0 <= ValueOf(s[..i]) < TwoTo(i)
  {
    if i > 0 {
      PrefixBelow(s, i - 1);
      assert s[..i] == s[..i - 1] + [s[i - 1]];
      ValueOneMore(s[..i - 1], s[i - 1]);
    }
  }

  // ----- every frame can be transmitted like this -----

  /** How long level k lasts in ticks of a tenth of a microsecond: 50us of low before every
      pulse, a first pulse of 80us, then 25us for a 0 and 70us for a 1. */
  function Duration(bits: Bits, k: nat): nat
    requires k <= 2 * PULSES
  {
    if k % 2 == 0 then 500 else if k == 1 then 800 else if bits[k / 2 - 1] == 0 then 250 else 700
  }

  function EdgeAt(bits: Bits, k: nat): nat
    requires k <= 2 * PULSES + 1
  {
    if k == 0 then 300 else EdgeAt(bits, k - 1) + Duration(bits, k - 1)
  }

  lemma EdgesRise(bits: Bits, i: nat, k: nat)
    requires i <= k <= 2 * PULSES + 1
    ensures EdgeAt(bits, i) + 250 * (k - i) <= EdgeAt(bits, k) <= EdgeAt(bits, i) + 800 * (k - i)
    decreases k
  {
    if i < k {
      EdgesRise(bits, i, k - 1);
    }
  }

  function Edges(bits: Bits): (e: seq<nat>)
    ensures |e| == 2 * PULSES + 2
  {
    seq(2 * PULSES + 2, k requires 0 <= k < 2 * PULSES + 2 => EdgeAt(bits, k))
  }

  /** High before the first edge and between an odd edge and the next. */
  predicate LevelAt(e: seq<nat>, t: nat) {
    (|e| > 0 && t < e[0]) || exists k :: 0 <= k < |e| - 1 && HighFrom(e, k, t)
  }

  predicate HighFrom(e: seq<nat>, k: nat, t: nat)
    requires k + 1 < |e|
  {
    k % 2 == 1 && e[k] <= t < e[k + 1]
  }

  lemma LevelBetween(bits: Bits, k: nat, t: nat)
    requires k <= 2 * PULSES && EdgeAt(bits, k) <= t < EdgeAt(bits, k + 1)
    ensures LevelAt(Edges(bits), t) == (k % 2 == 1)
  {
    var e := Edges(bits);
    EdgesRise(bits, 0, k);
    if k % 2 == 1 {
      assert HighFrom(e, k, t);
    } else {
      forall i | 0 <= i < |e| - 1
        ensures !HighFrom(e, i, t)
      {
        if i < k {
          EdgesRise(bits, i + 1, k);
        } else if i > k {
          EdgesRise(bits, k + 1, i);
        }
      }
    }
  }

  /** The assumptions about a transmission can be met for every 40 bits: this line meets them. */
  method TransmissionOf(bits: Bits) returns (line: Line, ghost e: seq<nat>)
    ensures fresh(line) && fresh(line.clock) && Transmits(line, line.clock.now, e, bits)
  {
    var edges := Edges(bits);
    var clock := new Clock(10, 1, 2, true, 0);
    line := new Line(clock, (t: nat) => LevelAt(edges, t), 10);
    e := edges;
    forall k | 0 <= k < 2 * PULSES + 1
      ensures Level(line, e, k)
    {
      forall t: nat | e[k] <= t < e[k + 1]
        ensures line.level(t) == (k % 2 == 1)
      {
        LevelBetween(bits, k, t);
      }
    }
    forall t: nat | e[0] <= t <= e[0] + 2
      ensures !line.level(t)
    {
      LevelBetween(bits, 0, t);
    }
    EdgesRise(bits, 0, 2 * PULSES + 1);
  }
}
