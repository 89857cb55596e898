/** The command processing of the UDP server: what it answers, and how it gets the readings
    out of the text of the device. Line numbers are those of server.c. */
module Server {
  import opened Options
  import opened Frame
  import opened Text
  import opened Dht11
  import opened CharDevice

  const VERSION_REPLY: string := "udpserver version 1.0\n"
  const HELP_TEXT: string :=
    "Available commands:\n" +
    "  v - Show server version\n" +
    "  ? - Show this help message\n" +
    "  t - Read temperature from DHT11 sensor\n" +
    "  h - Read humidity from DHT11 sensor\n"
  const UNKNOWN_REPLY: string := "Unknown command\n" + HELP_TEXT
  const BUFFER: nat := 80

  const NUL: char := '\0'

  predicate IsSpace(c: char) {
    c == ' ' || c == '\t' || c == '\n' || c as int == 11 || c as int == 12 || c == '\r'
  }

  /** The first character of a command after white space; NUL at the end of the string. */
  function CommandChar(cmd: string): char {
    if cmd == [] then NUL else if IsSpace(cmd[0]) then CommandChar(cmd[1..]) else cmd[0]
  }

  /** Lines 84-93: from "T:" up to " H:", if that follows. */
  function TemperaturePart(buff: string): Option<string> {
    match Find(buff, "T:")
    case None => None
    case Some(i) =>
      var t := buff[i..];
      var cut := match Find(t, " H:") case None => t case Some(k) => t[..k];
      Some(Bounded(cut + "\n", BUFFER))
  }

  /** Lines 101-107: from "H:" on. */
  function HumidityPart(buff: string): Option<string> {
    match Find(buff, "H:")
    case None => None
    case Some(i) => Some(Bounded(buff[i..], BUFFER))
  }

  // ----- from the frame to the reply -----

  lemma LayoutParts(n: string, m: string)
    requires |n| >= 1 && forall i :: 0 <= i < |n| ==> Numeric(n[i])
    ensures var s, k := Layout(n, m), |n| + 4;
            && |s| == |n| + |m| + 10 && s[..k] == "T: " + n + "C" && s[k..k + 3] == " H:"
            && s[k + 1..] == "H: " + m + "%\n"
            && s[..2] == "T:"
            && (forall j :: 0 <= j < k ==> s[j] != ' ' || s[j + 1] != 'H')
            && (forall j :: 0 <= j <= k ==> s[j] != 'H')
  {
    var s, k := Layout(n, m), |n| + 4;
    assert s == ("T: " + n + "C") + (" H: " + m + "%\n");
    assert s == ("T: " + n + "C ") + ("H: " + m + "%\n");
    assert forall j :: 3 <= j < k - 1 ==> s[j] == n[j - 3];
  }

  /** The two parts of a text in the driver's layout. */
  lemma PartsOfLayout(n: string, m: string)
    requires |n| >= 1 && |n| + |m| < 60 && forall i :: 0 <= i < |n| ==> Numeric(n[i])
    ensures TemperaturePart(Layout(n, m)) == Some("T: " + n + "C\n")
    ensures HumidityPart(Layout(n, m)) == Some("H: " + m + "%\n")
  {
    hide Layout;
    var s, k := Layout(n, m), |n| + 4;
    LayoutParts(n, m);
    assert Find(s, "T:") == Some(0) && s[0..] == s;
    assert s[k + 1..][..2] == s[k + 1..k + 3];
    FindAt(s, " H:", k);
    FindAt(s, "H:", k + 1);
    assert "T: " + n + "C" + "\n" == "T: " + n + "C\n";
  }

  lemma {:induction false} NotFound(s: string, pattern: string)
    requires |pattern| >= 2 && forall j :: 0 <= j < |s| ==> s[j] != pattern[1]
    ensures Find(s, pattern) == None
  {
    if |s| >= |pattern| {
      assert s[..|pattern|][1] == s[1];
      NotFound(s[1..], pattern);
    }
  }

  lemma NoReadings()
    ensures TemperaturePart(INCONSISTENT) == None && HumidityPart(INCONSISTENT) == None
  {
    NotFound(INCONSISTENT, "T:");
    NotFound(INCONSISTENT, "H:");
  }

  /** Whatever frame the driver accepted, the replies are exactly its two readings, and for a
      rejected frame there are none. */
  lemma RepliesOfFrame(f: Bytes)
    ensures Consistent(f) ==>
              && TemperaturePart(TextOf(f)) == Some("T: " + Number(Temperature(f)) + "C\n")
              && HumidityPart(TextOf(f)) == Some("H: " + Number(Humidity(f)) + "%\n")
    ensures !Consistent(f) ==> TemperaturePart(TextOf(f)) == None && HumidityPart(TextOf(f)) == None
  {
    hide Layout, Number, Temperature, Humidity, Consistent, Find;
    if Consistent(f) {
      TextFits(f);
      NumberShort(Temperature(f));
      NumberShort(Humidity(f));
      NumberIsNumeric(Temperature(f));
      PartsOfLayout(Number(Temperature(f)), Number(Humidity(f)));
    } else {
      hide TemperaturePart, HumidityPart;
      NoReadings();
    }
  }

  /** The number in a reply: what stands between "T: " or "H: " and the unit. */
  function ReadingOf(reply: string): int
    requires |reply| >= 9
  {
    ParseNumber(reply[3..|reply| - 2])
  }

  /** A client that reads the numbers back gets the stored hundredths, except that a
      temperature between -0.99 and -0.01 degrees loses its sign. */
  lemma ReadingsRoundTrip(f: Bytes)
    requires Consistent(f)
    ensures var t, h := TemperaturePart(TextOf(f)), HumidityPart(TextOf(f));
            && t.Some? && |t.value| >= 9 && h.Some? && |h.value| >= 9
            && ReadingOf(h.value) == Humidity(f)
            && (ReadingOf(t.value) == Temperature(f) <==> !(-100 < Temperature(f) < 0))
  {
    RepliesOfFrame(f);
    NumberRoundTrip(Temperature(f));
    NumberRoundTrip(Humidity(f));
    var t, h := "T: " + Number(Temperature(f)) + "C\n", "H: " + Number(Humidity(f)) + "%\n";
    assert t[3..|t| - 2] == Number(Temperature(f)) && h[3..|h| - 2] == Number(Humidity(f));
  }

  /** A frame of -0.50 degrees. */
  const COLD: Bytes := [0, 0, 128, 5, 133]

  lemma ColdFrame()
    ensures Consistent(COLD) && Temperature(COLD) == -50 && Number(-50) == "0.50"
  {
  }

  /** A frame that is accepted and whose reading comes out without its sign. */
  lemma LostSign()
    ensures Consistent(COLD) && Temperature(COLD) == -50
    ensures TemperaturePart(TextOf(COLD)) == Some("T: 0.50C\n") && ReadingOf("T: 0.50C\n") == 50
  {
    ColdFrame();
    RepliesOfFrame(COLD);
    NumberRoundTrip(-50);
    hide Consistent, Temperature, TemperaturePart, TextOf, Number, ParseNumber;
    var reply := "T: " + Number(Temperature(COLD)) + "C\n";
    assert reply == "T: 0.50C\n" && reply[3..|reply| - 2] == "0.50";
  }

  // ----- requests -----

  /** The reply to a command: device is the text of the device, if it can be read. */
  function Answer(c: char, device: Option<string>): Option<string> {
    if c == 'v' then Some(VERSION_REPLY)
    else if c == '?' then Some(HELP_TEXT)
    else if c == 't' then (if device.None? then None else TemperaturePart(device.value))
    else if c == 'h' then (if device.None? then None else HumidityPart(device.value))
    else Some(UNKNOWN_REPLY)
  }

  /** What a client is told about a frame: one of its two readings with its unit. */
  function Reading(c: char, f: Bytes): string {
    if c == 't' then "T: " + Number(Temperature(f)) + "C\n" else "H: " + Number(Humidity(f)) + "%\n"
  }

  /** One read of 79 bytes from the start gets the whole text, and release lets go again. */
  lemma WholeText(s: State, fd: int, copies: bool)
    requires fd in s.files && s.files[fd] == 0 && s.text != "" && |s.text| < BUFFER
    ensures var (after, result) := Step(s, Event.Read(fd, BUFFER - 1, copies));
            && result == (if copies then Data(s.text) else Fault) && after.text == s.text
            && Step(after, Event.Release(fd)) == (State(false, s.text, s.files - {fd}), Closed)
  {
    var (after, result) := Step(s, Event.Read(fd, BUFFER - 1, copies));
    assert after.files - {fd} == s.files - {fd};
    assert s.text[0..] == s.text;
  }

  /** read_dht11: open, one read, close. */
  method ReadDht11(dev: Device, fd: int, copies: bool, ghost e: seq<nat>, ghost frame: Bytes)
    returns (buff: Option<string>, ghost released: nat)
    requires dev.Valid() && fd !in dev.files
    modifies dev, dev.sensor, dev.sensor.buf, dev.sensor.tbuf, dev.line, dev.line.clock
    ensures dev.Valid() && dev.files == old(dev.files) && dev.locked == old(dev.locked)
    ensures buff.Some? <==> !old(dev.locked) && copies
    ensures buff.Some? ==> buff.value == dev.text
    ensures buff.Some? ==> AllBits(dev.sensor.Sampled()) && buff.value == TextOf(BytesOf(dev.sensor.Sampled()))
    ensures buff.Some? && Transmits(dev.line, released, e, FrameBits(frame)) ==> buff.value == TextOf(frame)
  {
    var err;
    err, released := dev.Open(fd, e, frame);
    if err != 0 {
      return None, released;
    }
    hide TextOf, Transmits, Step;
    TextFits(BytesOf(dev.sensor.Sampled()));
    WholeText(dev.Snapshot(), fd, copies);
    var s, data := dev.Read(fd, BUFFER - 1, copies);
    dev.Release(fd);
    if s < 0 {
      return None, released;
    }
    return Some(data), released;
  }

  lemma SpacesAre(cmd: string)
    ensures forall i :: 0 <= i < |cmd| ==>
            (IsSpace(cmd[i]) <==> cmd[i] in {' ', '\t', '\n', 11 as char, 12 as char, '\r'})
  {
  }

  /** The replies to 't' and 'h', in the bytes of the frame. */
  lemma RepliesAre(f: Bytes)
    ensures var t := if f[2] < 128 then 100 * f[2] + 10 * f[3] else -(100 * (f[2] - 128) + 10 * f[3]);
            if f[4] != (f[0] + f[1] + f[2] + f[3]) % 256
            then TemperaturePart(TextOf(f)) == None && HumidityPart(TextOf(f)) == None
            else
              && TemperaturePart(TextOf(f)) == Some("T: " + Number(t) + "C\n")
              && HumidityPart(TextOf(f)) == Some("H: " + Number(100 * f[0] + 10 * f[1]) + "%\n")
  {
    RepliesOfFrame(f);
    FrameMeans(f);
    hide Number, TextOf, TemperaturePart, HumidityPart, Consistent, Temperature, Humidity;
  }

  /** server_process_request; memory is whether malloc works. */
  method ProcessRequest(dev: Device, fd: int, cmd: string, copies: bool, memory: bool, ghost e: seq<nat>,
                        ghost frame: Bytes)
    returns (status: int, reply: string, ghost released: nat, ghost at: nat)
    requires dev.Valid() && fd !in dev.files
    modifies dev, dev.sensor, dev.sensor.buf, dev.sensor.tbuf, dev.line, dev.line.clock
    ensures dev.Valid() && dev.files == old(dev.files) && dev.locked == old(dev.locked)
    ensures (status, reply) ==
              var device := if old(dev.locked) || !copies then None else Some(dev.text);
              match if memory then Answer(CommandChar(cmd), device) else None
              case None => (-1, "")
              case Some(r) => (0, r)
    ensures CommandChar(cmd) in {'t', 'h'} && (old(dev.locked) || !copies || !memory) ==> status == -1
    ensures CommandChar(cmd) in {'t', 'h'} && !old(dev.locked) && copies && memory
            && Transmits(dev.line, released, e, FrameBits(frame)) ==>
              (status, reply) == if Consistent(frame) then (0, Reading(CommandChar(cmd), frame)) else (-1, "")
    ensures at <= |cmd| && forall i :: 0 <= i < at ==> cmd[i] in {' ', '\t', '\n', 11 as char, 12 as char, '\r'}
    ensures at < |cmd| ==> cmd[at] !in {' ', '\t', '\n', 11 as char, 12 as char, '\r'}
    ensures !memory ==> (status, reply) == (-1, "")
    ensures memory && at < |cmd| && cmd[at] == 'v' ==> (status, reply) == (0, "udpserver version 1.0\n")
    ensures memory && at < |cmd| && cmd[at] == '?' ==>
              && status == 0
              && reply == "Available commands:\n" +
                          "  v - Show server version\n" +
                          "  ? - Show this help message\n" +
                          "  t - Read temperature from DHT11 sensor\n" +
                          "  h - Read humidity from DHT11 sensor\n"
    ensures memory && (at == |cmd| || cmd[at] !in {'v', '?', 't', 'h'}) ==>
              && status == 0
              && reply == "Unknown command\n" +
                          ("Available commands:\n" +
                           "  v - Show server version\n" +
                           "  ? - Show this help message\n" +
                           "  t - Read temperature from DHT11 sensor\n" +
                           "  h - Read humidity from DHT11 sensor\n")
    ensures at < |cmd| && cmd[at] in {'t', 'h'} && (old(dev.locked) || !copies) ==> (status, reply) == (-1, "")
    ensures at < |cmd| && cmd[at] in {'t', 'h'} && !old(dev.locked) && copies && memory ==>
              && AllBits(dev.sensor.Sampled())
              && var f := BytesOf(dev.sensor.Sampled());
                 var t := if f[2] < 128 then 100 * f[2] + 10 * f[3] else -(100 * (f[2] - 128) + 10 * f[3]);
                 (status, reply) == if f[4] != (f[0] + f[1] + f[2] + f[3]) % 256 then (-1, "")
                                    else if cmd[at] == 't' then (0, "T: " + Number(t) + "C\n")
                                    else (0, "H: " + Number(100 * f[0] + 10 * f[1]) + "%\n")
  {
    hide TextOf, Transmits, TemperaturePart, HumidityPart, Number, Temperature, Humidity, Consistent, IsSpace;
    var p := 0;
    while p < |cmd| && IsSpace(cmd[p])
      invariant p <= |cmd| && CommandChar(cmd[p..]) == CommandChar(cmd)
      invariant forall i :: 0 <= i < p ==> IsSpace(cmd[i])
    {
      p := p + 1;
    }
    at := p;
    SpacesAre(cmd);
    var c := if p < |cmd| then cmd[p] else NUL;
    released := 0;
    var answer;
    match c {
      case 'v' => answer := Some(VERSION_REPLY);
      case '?' => answer := Some(HELP_TEXT);
      case 't' =>
        var buff;
        buff, released := ReadDht11(dev, fd, copies, e, frame);
        answer := if buff.None? then None else TemperaturePart(buff.value);
      case 'h' =>
        var buff;
        buff, released := ReadDht11(dev, fd, copies, e, frame);
        answer := if buff.None? then None else HumidityPart(buff.value);
      case _ => answer := Some(UNKNOWN_REPLY);
    }
    RepliesOfFrame(frame);
    if c in {'t', 'h'} && !old(dev.locked) && copies {
      RepliesAre(BytesOf(dev.sensor.Sampled()));
    }
    if answer.None? || !memory {
      return -1, "", released, at;
    }
    return 0, answer.value, released, at;
  }
}
