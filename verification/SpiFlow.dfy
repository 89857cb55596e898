/** How many bytes are where while bcm2835_spi_transfernb runs (lines 751-765 of bcm2835.c),
    and how many have been received when each byte is fetched to be sent. */
module SpiFlow {
  import opened Fifo

  /** One round of the outer loop. */
  function Turn(m: Machine, f: Flow): (g: Flow)
    requires m.Fits(f.at)
    ensures m.Fits(g.at) && Advanced(f, g) && g.empty == f.empty
  {
    m.Drained(m.Waited(m.Filled(m.Waited(f))))
  }

  predicate Underway(m: Machine, f: Flow)
    ensures Underway(m, f) ==> m.Fits(f.at)
  {
    m.Fits(f.at) && f.Balanced() && f.empty == 0
  }

  /** RX is emptied in every round, so nothing ever stalls for good. */
  lemma TurnProgress(m: Machine, f: Flow)
    requires Underway(m, f) && !f.Finished()
    ensures Underway(m, Turn(m, f)) && Nearer(f, Turn(m, f))
  {
    hide Machine.Filled, Machine.Drained, Machine.Moved, Machine.Settled;
  }

  /** For every byte still to be sent, the number of bytes received when it is fetched. */
  function Leads(m: Machine, f: Flow, n: nat): (leads: seq<nat>)
    requires Underway(m, f) && f.toRead <= n
    ensures |leads| == f.toWrite
    decreases f.toWrite, f.at.Work(), f.toRead, f.at.patience
  {
    if f.Finished() then []
    else
      TurnProgress(m, f);
      Repeated(n - f.toRead, f.toWrite - Turn(m, f).toWrite) + Leads(m, Turn(m, f), n)
  }

  predicate LedBy(m: Machine, start: Flow, n: nat, leads: seq<nat>) {
    Underway(m, start) && start.toRead <= n && leads == Leads(m, start, n)
  }

  /** A transfer from start that has come to f, with the leads so far. */
  predicate Ongoing(m: Machine, start: Flow, f: Flow, n: nat, leads: seq<nat>) {
    && Underway(m, start) && start.toRead <= n && Underway(m, f) && f.toRead <= n
    && leads + Leads(m, f, n) == Leads(m, start, n)
  }

  lemma LeadsStart(m: Machine, start: Flow, n: nat)
    requires Underway(m, start) && start.toRead <= n
    ensures Ongoing(m, start, start, n, [])
  {
  }

  lemma LeadsOn(m: Machine, start: Flow, f: Flow, n: nat, leads: seq<nat>)
    requires Ongoing(m, start, f, n, leads) && !f.Finished()
    ensures var g := Turn(m, f);
            Nearer(f, g) && Ongoing(m, start, g, n, leads + Repeated(n - f.toRead, f.toWrite - g.toWrite))
  {
    hide Turn;
    TurnProgress(m, f);
    var more, rest := Repeated(n - f.toRead, f.toWrite - Turn(m, f).toWrite), Leads(m, Turn(m, f), n);
    assert (leads + more) + rest == leads + (more + rest);
  }

  lemma LeadsEnd(m: Machine, start: Flow, f: Flow, n: nat, leads: seq<nat>)
    requires Ongoing(m, start, f, n, leads) && f.Finished()
    ensures LedBy(m, start, n, leads)
  {
  }

  lemma {:induction false} LeadsGrow(m: Machine, f: Flow, n: nat)
    requires Underway(m, f) && f.toRead <= n
    ensures forall i :: 0 <= i < f.toWrite ==> Leads(m, f, n)[i] >= n - f.toRead
    decreases f.toWrite, f.at.Work(), f.toRead, f.at.patience
  {
    hide Turn;
    if !f.Finished() {
      TurnProgress(m, f);
      LeadsGrow(m, Turn(m, f), n);
    }
  }

  /** Hardware that waits until its TX FIFO is full has answered one FIFO's worth of bytes
      before any further byte is fetched. */
  lemma WaitingLeads(m: Machine, n: nat, patience: nat, clock: nat)
    requires 1 <= m.depth < n && m.plan == WaitUntil(clock + 1 + 2 * m.depth, m.depth)
    ensures forall i :: m.depth <= i < n ==> Leads(m, Start(n, patience, clock), n)[i] >= m.depth
  {
    var f := Start(n, patience, clock);
    FirstTurn(m, n, patience, clock);
    TurnProgress(m, f);
    LeadsGrow(m, Turn(m, f), n);
  }

  lemma FirstTurn(m: Machine, n: nat, patience: nat, clock: nat)
    requires 1 <= m.depth < n && m.plan == WaitUntil(clock + 1 + 2 * m.depth, m.depth)
    ensures var g := Turn(m, Start(n, patience, clock));
            g.toWrite == n - m.depth && g.toRead == n - m.depth
  {
    hide Machine.Filled, Machine.Moved, Machine.Drained, Machine.Polled;
    var f := Start(n, patience, clock);
    FillWaits(m, m.Waited(f), clock + 1 + 2 * m.depth);
    var full := m.Filled(m.Waited(f));
    AllSent(m, full.at.(clock := full.at.clock + 1));
  }

  /** No byte is fetched before the reply to a later one is stored. */
  lemma {:induction false} LeadsBehind(m: Machine, f: Flow, n: nat)
    requires Underway(m, f) && f.toRead <= n
    ensures forall i :: 0 <= i < f.toWrite ==> Leads(m, f, n)[i] <= n - f.toWrite + i
    decreases f.toWrite, f.at.Work(), f.toRead, f.at.patience
  {
    hide Turn;
    if !f.Finished() {
      TurnProgress(m, f);
      LeadsBehind(m, Turn(m, f), n);
    }
  }

  /** A message that fits the FIFO is fetched before any reply is stored. */
  lemma ShortLeads(m: Machine, n: nat, patience: nat, clock: nat)
    requires 1 <= m.depth && n <= m.depth
    ensures forall i :: 0 <= i < n ==> Leads(m, Start(n, patience, clock), n)[i] == 0
  {
    hide Machine.Filled, Machine.Moved, Machine.Drained, Machine.Settled;
    var f := Start(n, patience, clock);
    if n > 0 {
      assert Turn(m, f).toWrite == 0;
      assert Leads(m, Turn(m, f), n) == [];
    }
  }

  /** The place of some byte of the message holds a byte of the reply when it is fetched. */
  ghost predicate Overtaken(m: Machine, t: nat, r: nat, len: nat, patience: nat, clock: nat)
    requires 1 <= m.depth
  {
    exists i: nat :: i < len && r <= t + i < r + Leads(m, Start(len, patience, clock), len)[i]
  }

  /** Some hardware lets the reply overtake the message exactly if the receive buffer starts
      inside the transmit buffer, after its start, and the message outgrows the FIFO. */
  lemma OvertakenExactly(capacity: nat, t: nat, r: nat, len: nat, patience: nat, clock: nat)
    requires 1 <= capacity
    ensures (exists plan: Plan :: Overtaken(Machine(capacity, plan), t, r, len, patience, clock))
       <==> t < r < t + len && capacity < len
  {
    hide Leads;
    forall plan: Plan | Overtaken(Machine(capacity, plan), t, r, len, patience, clock)
      ensures t < r < t + len && capacity < len
    {
      var m := Machine(capacity, plan);
      LeadsBehind(m, Start(len, patience, clock), len);
      if len <= capacity {
        ShortLeads(m, len, patience, clock);
      }
    }
    if t < r < t + len && capacity < len {
      var m := Machine(capacity, WaitUntil(clock + 1 + 2 * capacity, capacity));
      WaitingLeads(m, len, patience, clock);
      var i := if capacity <= r - t then r - t else capacity;
      assert r <= t + i < r + Leads(m, Start(len, patience, clock), len)[i];
      assert Overtaken(m, t, r, len, patience, clock);
    }
  }
}
