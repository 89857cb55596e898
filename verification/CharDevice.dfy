/** The character device: one open at a time, a text made when it is opened, read in chunks.
    Line numbers are those of main.c. */
module CharDevice {
  import opened Frame
  import opened Text
  import opened Dht11

  const TEXT_SIZE: nat := 80
  const EBUSY: int := -16
  const EFAULT: int := -14

  const INCONSISTENT: string := "Inconsistent data\n"

  /** The format of the driver's text, with its two numbers. */
  function Layout(t: string, h: string): string {
    "T: " + t + "C H: " + h + "%\n"
  }

  /** The text of the device for a frame. */
  function TextOf(f: Bytes): string {
    if Consistent(f) then Layout(Number(Temperature(f)), Number(Humidity(f))) else INCONSISTENT
  }

  /** The humidity of a frame as it is printed: its integral byte, carried into by the decimal one,
      a point, and the decimal digit. */
  lemma HumidityText(f: Bytes)
    ensures Number(Humidity(f)) == Decimal(f[0] + f[1] / 10) + "." + [Digit(f[1] % 10), '0']
  {
    assert Humidity(f) == 100 * (f[0] + f[1] / 10) + 10 * (f[1] % 10);
    TenthsText(f[0] + f[1] / 10, f[1] % 10);
  }

  /** The temperature as it is printed: the top bit of its integral byte is the sign, which is
      lost if nothing is left before the point. */
  lemma TemperatureText(f: Bytes)
    ensures var whole := f[2] % 128 + f[3] / 10;
            Number(Temperature(f)) ==
              (if f[2] >= 128 && whole > 0 then "-" else "") + Decimal(whole) + "." + [Digit(f[3] % 10), '0']
  {
    var whole, d := f[2] % 128 + f[3] / 10, f[3] % 10;
    assert Temperature(f) == if f[2] >= 128 then -(100 * whole + 10 * d) else 100 * whole + 10 * d;
    hide Number, Temperature;
    TenthsText(whole, d);
    assert "" + Decimal(whole) == Decimal(whole);
  }

  lemma TenthsText(whole: nat, d: nat)
    requires d < 10
    ensures Number(100 * whole + 10 * d) == Decimal(whole) + "." + [Digit(d), '0']
    ensures Number(-(100 * whole + 10 * d)) ==
              (if whole > 0 then "-" + Decimal(whole) else Decimal(whole)) + "." + [Digit(d), '0']
  {
    TenthsDigits(d);
    SplitTenths(whole, d);
    hide Quotient, Remainder, Decimal, TwoDigits;
  }

  lemma SplitTenths(whole: nat, d: nat)
    requires d < 10
    ensures Quotient(100 * whole + 10 * d) == whole && Remainder(100 * whole + 10 * d) == 10 * d
    ensures Quotient(-(100 * whole + 10 * d)) == 0 - whole && Remainder(-(100 * whole + 10 * d)) == 0 - 10 * d
  {
    assert (100 * whole + 10 * d) / 100 == whole;
  }

  lemma TenthsDigits(d: nat)
    requires d < 10
    ensures TwoDigits(10 * d) == [Digit(d), '0']
  {
  }

  /** Frames of 19.8 degrees at 26 percent, of the same below zero, and with a wrong sum. */
  const WARM: Bytes := [26, 0, 19, 8, 53]
  const FROSTY: Bytes := [26, 0, 147, 8, 181]
  const GARBLED: Bytes := [26, 0, 19, 8, 54]

  lemma SampleReadings()
    ensures Consistent(WARM) && Temperature(WARM) == 1980 && Humidity(WARM) == 2600
    ensures Consistent(FROSTY) && Temperature(FROSTY) == -1980 && Humidity(FROSTY) == 2600
    ensures !Consistent(GARBLED)
  {
  }

  lemma SampleNumbers()
    ensures Number(1980) == "19.80" && Number(-1980) == "-19.80" && Number(2600) == "26.00"
  {
    TenthsText(19, 8);
    TenthsText(26, 0);
    hide Number;
    assert Decimal(1) == "1" && Decimal(2) == "2";
    assert Decimal(19) == "19" && Decimal(26) == "26";
    assert "19" + "." + ['8', '0'] == "19.80" && "-" + "19" + "." + ['8', '0'] == "-19.80";
    assert "26" + "." + ['0', '0'] == "26.00";
  }

  lemma TextsOfFrames()
    ensures TextOf(WARM) == "T: 19.80C H: 26.00%\n"
    ensures TextOf(FROSTY) == "T: -19.80C H: 26.00%\n"
    ensures TextOf(GARBLED) == "Inconsistent data\n"
  {
    SampleReadings();
    SampleNumbers();
    hide Consistent, Temperature, Humidity, Number;
    assert "T: " + "19.80" + "C H: " + "26.00" + "%\n" == "T: 19.80C H: 26.00%\n";
    assert "T: " + "-19.80" + "C H: " + "26.00" + "%\n" == "T: -19.80C H: 26.00%\n";
  }

  /** The text always fits its buffer: nothing is cut off. */
  lemma TextFits(f: Bytes)
    ensures |TextOf(f)| < TEXT_SIZE && -15250 <= Temperature(f) <= 15250 && Humidity(f) <= 28050
  {
    NumberShort(Temperature(f));
    NumberShort(Humidity(f));
  }

  /** Lines 62-68: the split into whole and hundredths, and snprintf into the buffer. */
  function Formatted(temperature: int, humidity: nat): string {
    var tempInt := Quotient(temperature);
    var tempFrac := Abs(Remainder(temperature));
    Bounded(Layout(Signed(tempInt) + "." + TwoDigits(tempFrac),
                   Decimal(humidity / 100) + "." + TwoDigits(humidity % 100)), TEXT_SIZE)
  }

  lemma FormattedIsText(f: Bytes)
    requires Consistent(f)
    ensures Formatted(Temperature(f), Humidity(f)) == TextOf(f)
  {
    hide Layout;
    TextFits(f);
    assert Number(Humidity(f)) == Decimal(Humidity(f) / 100) + "." + TwoDigits(Humidity(f) % 100);
  }

  lemma InconsistentIsText(f: Bytes)
    requires !Consistent(f)
    ensures Bounded(INCONSISTENT, TEXT_SIZE) == TextOf(f)
  {
  }

  /** The text, in the bytes of the frame. */
  lemma TextIs(f: Bytes)
    ensures var t := if f[2] < 128 then 100 * f[2] + 10 * f[3] else -(100 * (f[2] - 128) + 10 * f[3]);
            TextOf(f) == if f[4] != (f[0] + f[1] + f[2] + f[3]) % 256 then "Inconsistent data\n"
                         else "T: " + Number(t) + "C H: " + Number(100 * f[0] + 10 * f[1]) + "%\n"
  {
    FrameMeans(f);
    hide Number, Temperature, Humidity;
  }

  // ----- the device and its open files as a state machine -----

  /** files maps every handle from a successful open that is not yet released to its position. */
  datatype State = State(locked: bool, text: string, files: map<int, nat>)

  datatype Event =
    | Open(fd: int, made: string)               // made: what the sensor would make the text now
    | Read(fd: int, count: nat, copies: bool)   // copies: whether copy_to_user works
    | Release(fd: int)

  datatype Result = Opened | Busy | Data(bytes: string) | Fault | Closed | BadHandle

  function Available(s: State, fd: int, count: nat): string
    requires fd in s.files
  {
    var pos := s.files[fd];
    if pos >= |s.text| then "" else if count > |s.text| - pos then s.text[pos..] else s.text[pos..pos + count]
  }

  function Step(s: State, ev: Event): (State, Result) {
    match ev
    case Open(fd, made) =>
      if fd in s.files then (s, BadHandle)
      else if s.locked then (s, Busy)
      else (State(true, made, s.files[fd := 0]), Opened)
    case Read(fd, count, copies) =>
      if fd !in s.files then (s, BadHandle)
      else if s.files[fd] >= |s.text| then (s, Data(""))
      else if !copies then (s, Fault)
      else
        var bytes := Available(s, fd, count);
        (s.(files := s.files[fd := s.files[fd] + |bytes|]), Data(bytes))
    case Release(fd) =>
      if fd !in s.files then (s, BadHandle)
      else (s.(locked := false, files := s.files - {fd}), Closed)
  }

  function Run(s: State, evs: seq<Event>): State {
    if evs == [] then s else Step(Run(s, evs[..|evs| - 1]), evs[|evs| - 1]).0
  }

  /** The lock is held exactly while an open is outstanding, and never more than one is. */
  predicate Exclusive(s: State) {
    && (s.locked <==> s.files != map[])
    && (forall fd, other :: fd in s.files && other in s.files ==> fd == other)
    && (forall fd :: fd in s.files ==> s.files[fd] <= |s.text|)
  }

  lemma StepKeepsExclusive(s: State, ev: Event)
    requires Exclusive(s)
    ensures Exclusive(Step(s, ev).0)
  {
    var after := Step(s, ev).0;
    match ev
    case Open(fd, made) =>
      assert after.locked && !s.locked && fd !in s.files ==> fd in after.files;
    case Read(fd, count, copies) =>
      assert fd in s.files ==> fd in after.files;
    case Release(fd) =>
      if fd in s.files {
        assert forall other :: other !in after.files;
        assert after.files == map[];
      }
  }

  /** Over every interleaving of opens, reads and releases by any number of processes. */
  lemma {:induction false} RunKeepsExclusive(s: State, evs: seq<Event>)
    requires Exclusive(s)
    ensures Exclusive(Run(s, evs))
  {
    if evs != [] {
      RunKeepsExclusive(s, evs[..|evs| - 1]);
      StepKeepsExclusive(Run(s, evs[..|evs| - 1]), evs[|evs| - 1]);
    }
  }

  /** What the reads on one handle delivered in the course of a run. */
  function Delivered(s: State, evs: seq<Event>, fd: int): string {
    if evs == [] then ""
    else
      var last := evs[|evs| - 1];
      Delivered(s, evs[..|evs| - 1], fd) +
      match Step(Run(s, evs[..|evs| - 1]), last).1
      case Data(bytes) => if last.Read? && last.fd == fd then bytes else ""
      case _ => ""
  }

  /** Reads on a handle that ask for something and whose copy works. */
  function GoodReads(evs: seq<Event>, fd: int): nat {
    if evs == [] then 0
    else
      var last := evs[|evs| - 1];
      GoodReads(evs[..|evs| - 1], fd) + if last.Read? && last.fd == fd && last.count > 0 && last.copies then 1 else 0
  }

  /** How many bytes these reads ask for. */
  function Asked(evs: seq<Event>, fd: int): nat {
    if evs == [] then 0
    else
      var last := evs[|evs| - 1];
      Asked(evs[..|evs| - 1], fd) + if last.Read? && last.fd == fd && last.copies then last.count else 0
  }

  /** From its open to its release a holder sees one text: nobody else gets in, the text does
      not change, the position is the number of bytes delivered, the bytes delivered are the
      text from where it started, as many as were asked for until there are no more. */
  lemma {:induction false} HolderReadsItsText(s: State, evs: seq<Event>, fd: int)
    requires Exclusive(s) && fd in s.files && Release(fd) !in evs
    ensures var after := Run(s, evs);
            && Exclusive(after) && fd in after.files && after.text == s.text
            && s.files[fd] <= after.files[fd] <= |s.text|
            && Delivered(s, evs, fd) == s.text[s.files[fd]..after.files[fd]]
            && (after.files[fd] == |s.text| || after.files[fd] >= s.files[fd] + GoodReads(evs, fd))
            && after.files[fd] ==
                 if s.files[fd] + Asked(evs, fd) < |s.text| then s.files[fd] + Asked(evs, fd) else |s.text|
  {
    if evs != [] {
      var init, last := evs[..|evs| - 1], evs[|evs| - 1];
      HolderReadsItsText(s, init, fd);
      var mid := Run(s, init);
      StepKeepsExclusive(mid, last);
      assert last in evs;
      HolderStep(s.text, s.files[fd], mid, last, fd);
    }
  }

  lemma HolderStep(text: string, start: nat, mid: State, ev: Event, fd: int)
    requires Exclusive(mid) && fd in mid.files && mid.text == text && start <= mid.files[fd] && ev != Release(fd)
    ensures var (after, result) := Step(mid, ev);
            && fd in after.files && after.text == text && mid.files[fd] <= after.files[fd] <= |text|
            && (if ev.Read? && ev.fd == fd && result.Data?
                then text[start..after.files[fd]] == text[start..mid.files[fd]] + result.bytes
                else after.files[fd] == mid.files[fd])
            && (ev.Read? && ev.fd == fd && ev.count > 0 && ev.copies ==>
                  after.files[fd] > mid.files[fd] || after.files[fd] == |text|)
            && (ev.Read? && ev.fd == fd && ev.copies ==>
                  after.files[fd] == if mid.files[fd] + ev.count < |text| then mid.files[fd] + ev.count else |text|)
  {
    if ev.Open? && ev.fd != fd {
      assert mid.locked;
    }
  }

  /** Opens that succeeded less handles released: by the results of the calls, not by the state. */
  function Outstanding(s: State, evs: seq<Event>): int {
    if evs == [] then |s.files|
    else
      Outstanding(s, evs[..|evs| - 1]) +
      match Step(Run(s, evs[..|evs| - 1]), evs[|evs| - 1]).1
      case Opened => 1
      case Closed => -1
      case _ => 0
  }

  lemma {:induction false} OutstandingAreFiles(s: State, evs: seq<Event>)
    requires Exclusive(s)
    ensures Outstanding(s, evs) == |Run(s, evs).files|
  {
    if evs != [] {
      var init, last := evs[..|evs| - 1], evs[|evs| - 1];
      OutstandingAreFiles(s, init);
      var files := Run(s, init).files;
      if last.Release? && last.fd in files {
        assert |files.Keys| == |(files - {last.fd}).Keys| + 1 by {
          assert (files - {last.fd}).Keys == files.Keys - {last.fd};
        }
      } else if last.Open? && last.fd !in files {
        assert files[last.fd := 0].Keys == files.Keys + {last.fd};
      } else if last.Read? && last.fd in files {
        assert Run(s, evs).files.Keys == files.Keys;
      }
    }
  }

  /** At any moment at most one open is outstanding, and the next one succeeds exactly if
      none is; refused, it changes nothing. */
  lemma OpenSucceedsIfFree(s: State, evs: seq<Event>, fd: int, made: string)
    requires Exclusive(s) && fd !in Run(s, evs).files
    ensures 0 <= Outstanding(s, evs) <= 1
    ensures Step(Run(s, evs), Open(fd, made)) ==
              if Outstanding(s, evs) == 0 then (State(true, made, map[fd := 0]), Opened) else (Run(s, evs), Busy)
  {
    RunKeepsExclusive(s, evs);
    OutstandingAreFiles(s, evs);
    AtMostOneFile(Run(s, evs));
  }

  lemma AtMostOneFile(s: State)
    requires Exclusive(s)
    ensures |s.files| <= 1 && (s.locked <==> |s.files| == 1)
  {
    if forall fd :: fd !in s.files {
      assert s.files == map[];
    } else {
      var fd :| fd in s.files;
      assert forall other :: other in s.files <==> other == fd;
      assert s.files.Keys == {fd};
    }
  }

  /** Once a holder has made as many good reads as the text has characters, it has got exactly
      the text, and however it goes on nothing more is delivered until it releases. */
  lemma NothingAfterTheEnd(s: State, evs: seq<Event>, more: seq<Event>, fd: int)
    requires Exclusive(s) && fd in s.files && s.files[fd] == 0 && Release(fd) !in evs + more
    requires GoodReads(evs, fd) >= |s.text|
    ensures Delivered(s, evs, fd) == s.text && Delivered(s, evs + more, fd) == s.text
    ensures var after := Run(s, evs + more);
            forall count: nat, copies :: Step(after, Read(fd, count, copies)) == (after, Data(""))
  {
    MoreGoodReads(evs, more, fd);
    assert forall ev :: ev in evs ==> ev in evs + more;
    HolderReadsItsText(s, evs, fd);
    HolderReadsItsText(s, evs + more, fd);
    assert s.text[0..|s.text|] == s.text;
  }

  lemma {:induction false} MoreGoodReads(evs: seq<Event>, more: seq<Event>, fd: int)
    ensures GoodReads(evs + more, fd) >= GoodReads(evs, fd)
  {
    if more == [] {
      assert evs + more == evs;
    } else {
      var init := more[..|more| - 1];
      MoreGoodReads(evs, init, fd);
      assert (evs + more)[..|evs + more| - 1] == evs + init;
    }
  }

  // ----- the driver's entry points -----

  class Device {
    const sensor: Sensor
    const line: Line

    var locked: bool
    var text: string
    var files: map<int, nat>

    constructor (sensor: Sensor, line: Line)
      requires sensor.Valid() && line.clock.Sound()
      ensures Valid() && Snapshot() == State(false, "", map[])
      ensures this.sensor == sensor && this.line == line
    {
      this.sensor, this.line := sensor, line;
      locked, text, files := false, "", map[];
    }

    function Snapshot(): State
      reads this
    {
      State(locked, text, files)
    }

    ghost predicate Valid()
      reads this
    {
      sensor.Valid() && line.clock.Sound() && Exclusive(Snapshot())
    }

    /** dht11_driver_open for a new file handle. */
    method Open(fd: int, ghost e: seq<nat>, ghost frame: Bytes) returns (err: int, ghost released: nat)
      requires Valid() && fd !in files
      modifies this, sensor, sensor.buf, sensor.tbuf, line, line.clock
      ensures Valid() && (err == 0 || err == EBUSY)
      ensures (Snapshot(), if err == 0 then Opened else Busy) == Step(old(Snapshot()), Event.Open(fd, text))
      ensures err == 0 ==> AllBits(sensor.Sampled()) && text == TextOf(BytesOf(sensor.Sampled()))
      ensures locked && (err == -16 <==> old(locked))
      ensures err == 0 ==>
                var f := BytesOf(sensor.Sampled());
                var t := if f[2] < 128 then 100 * f[2] + 10 * f[3] else -(100 * (f[2] - 128) + 10 * f[3]);
                text == if f[4] != (f[0] + f[1] + f[2] + f[3]) % 256 then "Inconsistent data\n"
                        else "T: " + Number(t) + "C H: " + Number(100 * f[0] + 10 * f[1]) + "%\n"
      ensures if old(locked) then text == old(text) && files == old(files) else files == old(files)[fd := 0]
      ensures err == 0 && Transmits(line, released, e, FrameBits(frame)) ==> text == TextOf(frame)
    {
      hide TextOf, Number, Formatted, Bounded, Consistent, Temperature, Humidity, Transmits, Exclusive;
      hide BytesOf, AllBits;
      ghost var before := Snapshot();
      released := 0;
      if locked {
        return EBUSY, released;
      }
      locked := true;
      var status;
      status, released := sensor.GetData(line, e, frame);
      if status != 0 {
        text := Bounded(INCONSISTENT, TEXT_SIZE);
        InconsistentIsText(BytesOf(sensor.Sampled()));
      } else {
        text := Formatted(sensor.temperature, sensor.humidity);
        FormattedIsText(BytesOf(sensor.Sampled()));
      }
      files := files[fd := 0];
      TextIs(BytesOf(sensor.Sampled()));
      StepKeepsExclusive(before, Event.Open(fd, text));
      return 0, released;
    }

    /** dht11_driver_read. */
    method Read(fd: int, count: nat, copies: bool) returns (ret: int, data: string)
      requires Valid() && fd in files
      modifies `files
      ensures Valid()
      ensures (Snapshot(), if ret < 0 then Fault else Data(data))
              == Step(old(Snapshot()), Event.Read(fd, count, copies))
      ensures ret == if ret < 0 then EFAULT else |data|
      ensures locked == old(locked) && text == old(text)
      ensures var pos, rest := old(files[fd]), |text| - old(files[fd]);
              if rest > 0 && !copies then ret == -14 && data == "" && files == old(files)
              else
                && ret == (if count < rest then count else rest)
                && data == text[pos..pos + ret] && files == old(files)[fd := pos + ret]
    {
      StepKeepsExclusive(Snapshot(), Event.Read(fd, count, copies));
      var offset := files[fd];
      if offset >= |text| {
        return 0, "";
      }
      var granted := if count > |text| - offset then |text| - offset else count;
      if !copies {
        return EFAULT, "";
      }
      files := files[fd := offset + granted];
      assert text[offset..] == text[offset..|text|];
      return granted, text[offset..offset + granted];
    }

    /** dht11_driver_release. */
    method Release(fd: int)
      requires Valid() && fd in files
      modifies `locked, `files
      ensures Valid() && (Snapshot(), Closed) == Step(old(Snapshot()), Event.Release(fd))
      ensures !locked && text == old(text) && files == old(files) - {fd}
    {
      StepKeepsExclusive(Snapshot(), Event.Release(fd));
      locked, files := false, files - {fd};
    }
  }
}
