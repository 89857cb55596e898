/** A pair of FIFOs with a wire between them, as counts: how many words are where while a
    driver writes and reads, and the hardware moves between the accesses. Counts follow from the
    length of a message and from what the hardware does before each access, its plan; what the
    words carry does not matter. Line numbers are those of bcm2835.c. */
module Fifo {
  /** What the hardware does before one access: the steps it takes, and how many accesses
      without a step it may let pass from then on. */
  datatype Choice = Choice(steps: nat, patience: nat)

  type Plan = nat -> Choice

  /** Words in the TX FIFO, on the wire and in the RX FIFO; accesses the hardware may still
      stay idle for; accesses so far. */
  datatype Fifos = Fifos(tx: nat, shift: nat, rx: nat, patience: nat, clock: nat) {
    /** Hardware steps left until the TX side is empty. */
    function Work(): nat {
      2 * tx + shift
    }

    function Words(): nat {
      tx + shift + rx
    }
  }

  /** A transfer under way: words still to be written and to be read, and reads so far that
      found the RX FIFO empty. */
  datatype Flow = Flow(at: Fifos, toWrite: nat, toRead: nat, empty: nat) {
    predicate Finished() {
      toWrite == 0 && toRead == 0
    }

    /** Every word written is still on its way or was read, unless the read found nothing. */
    predicate Balanced() {
      toWrite + at.Words() == toRead + empty
    }
  }

  /** Nothing under way, and n words to exchange. */
  function Start(n: nat, patience: nat, clock: nat): Flow {
    Flow(Fifos(0, 0, 0, patience, clock), n, n, 0)
  }

  /** What every part of a transfer keeps. */
  predicate Advanced(f: Flow, g: Flow) {
    && g.toWrite <= f.toWrite && g.toRead <= f.toRead && f.empty <= g.empty
    && (f.Balanced() ==> g.Balanced())
  }

  /** The hardware FIFO depth and what the hardware does. */
  datatype Machine = Machine(depth: nat, plan: Plan) {
    predicate Fits(h: Fifos) {
      1 <= depth && h.tx <= depth && h.rx <= depth && h.shift <= 1
    }

    /** Whether the hardware can move. A finished word waits for room in the RX FIFO. */
    predicate Enabled(h: Fifos) {
      if h.shift == 0 then h.tx > 0 else h.rx < depth
    }

    /** Polling gets somewhere: the hardware moved, or its patience is running out. */
    predicate Polled(h: Fifos, g: Fifos) {
      || g.Work() < h.Work()
      || (&& g.tx == h.tx && g.shift == h.shift && g.rx == h.rx && g.patience <= h.patience
          && (Enabled(h) ==> g.patience < h.patience))
    }

    function Moved(h: Fifos, steps: nat): (g: Fifos)
      requires Fits(h)
      ensures Fits(g) && g.Words() == h.Words() && g.tx <= h.tx && h.rx <= g.rx && g.Work() <= h.Work()
      ensures g.patience == h.patience && g.clock == h.clock
      ensures if steps > 0 && Enabled(h) then g.Work() < h.Work() else g == h
      decreases steps
    {
      if steps == 0 || !Enabled(h) then h
      else if h.shift == 0 then Moved(h.(tx := h.tx - 1, shift := 1), steps - 1)
      else Moved(h.(shift := 0, rx := h.rx + 1), steps - 1)
    }

    /** The hardware runs before an access. */
    function Settled(h: Fifos): (g: Fifos)
      requires Fits(h)
      ensures Fits(g) && g.Words() == h.Words() && g.tx <= h.tx && h.rx <= g.rx && g.Work() <= h.Work()
      ensures Polled(h, g)
      ensures !Enabled(h) ==> g == h.(clock := h.clock + 1)
    {
      var choice, g := plan(h.clock), h.(clock := h.clock + 1);
      if !Enabled(h) then g
      else if choice.steps == 0 && 0 < h.patience then g.(patience := h.patience - 1)
      else Moved(g, if choice.steps == 0 then 1 else choice.steps).(patience := choice.patience)
    }

    /** A word written to the TX FIFO. */
    function Written(h: Fifos): (g: Fifos)
      requires Fits(h) && h.tx < depth
      ensures Fits(g) && g.Words() == h.Words() + 1
    {
      Settled(h).(tx := Settled(h).tx + 1, patience := plan(h.clock).patience)
    }

    /** A word read from the RX FIFO, if there is one. */
    function Taken(h: Fifos): (g: Fifos)
      requires Fits(h)
      ensures Fits(g) && g.Words() == h.Words() - (if Settled(h).rx == 0 then 0 else 1)
      ensures g.Work() <= h.Work()
    {
      var s := Settled(h).(patience := plan(h.clock).patience);
      if s.rx == 0 then s else s.(rx := s.rx - 1)
    }

    // ----- the driver's loops -----

    function Waited(f: Flow): (g: Flow)
      requires Fits(f.at)
      ensures Fits(g.at) && Advanced(f, g)
      ensures g.toWrite == f.toWrite && g.toRead == f.toRead && g.empty == f.empty
    {
      f.(at := Settled(f.at))
    }

    function Pushed(f: Flow): (g: Flow)
      requires Fits(f.at) && f.at.tx < depth && 0 < f.toWrite
      ensures Fits(g.at) && Advanced(f, g)
    {
      f.(at := Written(f.at), toWrite := f.toWrite - 1)
    }

    function Popped(f: Flow): (g: Flow)
      requires Fits(f.at) && 0 < f.toRead
      ensures Fits(g.at) && Advanced(f, g) && g.at.Work() <= f.at.Work()
      ensures f.at.rx > 0 ==> g.empty == f.empty
    {
      Flow(Taken(f.at), f.toWrite, f.toRead - 1, if Settled(f.at).rx == 0 then f.empty + 1 else f.empty)
    }

    /** Words written while the TX FIFO has room, from a status read on: lines 754-758 on SPI0,
        1046-1064 on the auxiliary SPI. */
    function Filled(f: Flow): (g: Flow)
      requires Fits(f.at)
      ensures Fits(g.at) && Advanced(f, g) && g.toRead == f.toRead && g.empty == f.empty
      ensures g.toWrite > 0 ==> g.at.tx == depth
      ensures g.toWrite == f.toWrite ==> g == f
      decreases f.toWrite
    {
      if f.at.tx < depth && f.toWrite > 0 then Filled(Waited(Pushed(f))) else f
    }

    /** Words read while the RX FIFO has any: lines 760-764 on SPI0, 1066-1086 on the
        auxiliary SPI. */
    function Drained(f: Flow): (g: Flow)
      requires Fits(f.at)
      ensures Fits(g.at) && Advanced(f, g) && g.toWrite == f.toWrite && g.empty == f.empty && g.at.Work() <= f.at.Work()
      ensures g.toRead > 0 ==> g.at.rx == 0
      ensures g.toRead == f.toRead ==> g == f
      decreases f.toRead
    {
      if f.at.rx > 0 && f.toRead > 0 then Drained(Waited(Popped(f))) else f
    }
  }

  /** An answer that arrives is progress, whatever happens to it afterwards. */
  lemma PolledFurther(m: Machine, h: Fifos, g: Fifos, later: Fifos)
    ensures m.Polled(h, g) && g.rx != h.rx && later.Work() <= g.Work() ==> m.Polled(h, later)
  {
  }

  /** Once RX is drained and polled again there is less to do, or patience has run down. */
  lemma DoneComesCloser(m: Machine, h: Fifos, drained: Fifos)
    requires m.Fits(h) && h.Work() > 0 && m.Fits(drained) && drained.rx == 0 && drained.Work() <= h.Work()
    requires h.rx == 0 ==> m.Polled(h, drained)
    ensures var g := m.Settled(drained);
            || g.Work() < h.Work()
            || (g.Work() == h.Work() && (g.rx < h.rx || (g.rx == h.rx && g.patience < h.patience)))
  {
    hide Machine.Moved, Machine.Settled;
  }

  lemma FillsOn(m: Machine, f: Flow)
    requires m.Fits(f.at)
    ensures m.Filled(f) == if f.at.tx < m.depth && f.toWrite > 0 then m.Filled(m.Waited(m.Pushed(f))) else f
  {
  }

  lemma DrainsOn(m: Machine, f: Flow)
    requires m.Fits(f.at)
    ensures m.Drained(f) == if f.at.rx > 0 && f.toRead > 0 then m.Drained(m.Waited(m.Popped(f))) else f
  {
  }

  /** Words fetched one after another, with as many words read at each. */
  function Repeated(lead: nat, times: nat): (leads: seq<nat>)
    ensures |leads| == times
  {
    seq(times, _ => lead)
  }

  /** Words were written, or the hardware moved, or words were read, or patience was used up. */
  predicate Nearer(f: Flow, g: Flow) {
    || g.toWrite < f.toWrite
    || (g.toWrite == f.toWrite && g.at.Work() < f.at.Work())
    || (g.toWrite == f.toWrite && g.at.Work() == f.at.Work() && g.toRead < f.toRead)
    || (g.toWrite == f.toWrite && g.at.Work() == f.at.Work() && g.toRead == f.toRead && g.at.patience < f.at.patience)
  }

  function Polls(m: Machine, h: Fifos, n: nat): (g: Fifos)
    requires m.Fits(h)
    ensures m.Fits(g) && g.Words() == h.Words()
  {
    if n == 0 then h else m.Settled(Polls(m, h, n - 1))
  }

  /** With more words under way than the RX FIFO takes, no number of polls finds the hardware
      idle. With no more than that, some number does. */
  lemma BusyForever(m: Machine, h: Fifos)
    requires m.Fits(h)
    ensures (forall n: nat :: Polls(m, h, n).Work() > 0) <==> h.Words() > m.depth
  {
    if h.Words() <= m.depth {
      var n := IdleAfter(m, h);
    }
  }

  lemma {:induction false} IdleAfter(m: Machine, h: Fifos) returns (n: nat)
    requires m.Fits(h) && h.Words() <= m.depth
    ensures Polls(m, h, n).Work() == 0
    decreases h.Work(), h.patience
  {
    if h.Work() == 0 {
      n := 0;
    } else {
      n := IdleAfter(m, m.Settled(h));
      PollFirst(m, h, n);
      n := n + 1;
    }
  }

  lemma {:induction false} PollFirst(m: Machine, h: Fifos, n: nat)
    requires m.Fits(h)
    ensures Polls(m, m.Settled(h), n) == Polls(m, h, n + 1)
  {
    hide Machine.Settled;
    if n > 0 {
      PollFirst(m, h, n - 1);
    }
  }

  // ----- hardware that waits -----

  /** The hardware waits until one moment, and then sends everything there is. */
  function WaitUntil(moment: nat, depth: nat): Plan {
    i => Choice(if i == moment then 2 * depth else 0, 2)
  }

  lemma {:induction false} FillWaits(m: Machine, f: Flow, moment: nat)
    requires m.Fits(f.at) && m.plan == WaitUntil(moment, m.depth)
    requires f.at.shift == 0 && f.at.clock + 2 * (m.depth - f.at.tx) == moment && m.depth - f.at.tx <= f.toWrite
    requires f.at.tx == 0 || f.at.patience > 0
    ensures var g := m.Filled(f);
            g == f.(at := f.at.(tx := m.depth, clock := moment, patience := g.at.patience),
              toWrite := f.toWrite - (m.depth - f.at.tx))
    decreases m.depth - f.at.tx
  {
    if f.at.tx < m.depth {
      FillWaits(m, m.Waited(m.Pushed(f)), moment);
    }
  }

  lemma {:induction false} AllSent(m: Machine, h: Fifos)
    requires m.Fits(h) && h.shift == 0 && h.rx + h.tx <= m.depth
    ensures m.Moved(h, 2 * h.tx) == h.(tx := 0, rx := h.rx + h.tx)
    decreases h.tx
  {
    if h.tx > 0 {
      var g := h.(tx := h.tx - 1, rx := h.rx + 1);
      AllSent(m, g);
      assert m.Moved(h.(tx := h.tx - 1, shift := 1), 2 * h.tx - 1) == m.Moved(g, 2 * h.tx - 2);
    }
  }
}
