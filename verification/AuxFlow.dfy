/** How many words are where while bcm2835_aux_spi_transfernb runs (lines 1044-1109 of
    bcm2835.c). This is enough to say when a transfer reads words that never arrived, and
    when it never ends. */
module AuxFlow {
  import opened Fifo

  /** Lines 1088-1108 from a status read on. */
  function DrainedIdle(m: Machine, f: Flow): (g: Flow)
    requires m.Fits(f.at)
    ensures m.Fits(g.at) && Advanced(f, g) && g.toWrite == f.toWrite && g.at.Work() <= f.at.Work()
    ensures g.empty > f.empty ==> g.toRead == 0 && g.at.Words() == 0
    ensures g.toRead == f.toRead ==> g == f
    decreases f.toRead
  {
    if f.at.tx == 0 && f.at.shift == 0 && f.toRead > 0 then DrainedIdle(m, m.Waited(m.Popped(f))) else f
  }

  lemma DrainsIdleOn(m: Machine, f: Flow)
    requires m.Fits(f.at)
    ensures DrainedIdle(m, f) ==
              if f.at.tx == 0 && f.at.shift == 0 && f.toRead > 0 then DrainedIdle(m, m.Waited(m.Popped(f))) else f
  {
  }

  /** One round of the outer loop; once that has ended nothing more happens. */
  function Round(m: Machine, f: Flow): (g: Flow)
    requires m.Fits(f.at)
    ensures m.Fits(g.at) && Advanced(f, g)
  {
    if f.Finished() then f else DrainedIdle(m, m.Waited(m.Drained(m.Waited(m.Filled(m.Waited(f))))))
  }

  function Rounds(m: Machine, f: Flow, r: nat): (g: Flow)
    requires m.Fits(f.at)
    ensures m.Fits(g.at) && Advanced(f, g)
  {
    if r == 0 then f else Round(m, Rounds(m, f, r - 1))
  }

  /** The function waits for room in the TX FIFO, the hardware for room in the RX FIFO,
      which is not read any more. */
  predicate Stuck(m: Machine, f: Flow) {
    f.toWrite > 0 && f.toRead == 0 && f.at.tx == m.depth && !m.Enabled(f.at)
  }

  /** At the end of a round of a transfer of n words. */
  predicate Reached(m: Machine, f: Flow, n: nat)
    ensures Reached(m, f, n) ==> m.Fits(f.at) && f.toWrite <= n && f.toRead <= n
  {
    && m.Fits(f.at) && f.Balanced() && f.toWrite <= n && f.toRead <= n
    && (f.empty > 0 ==> f.toRead == 0 && m.depth <= n && f.empty <= n - m.depth && f.toWrite <= f.empty)
  }

  // ----- every run -----

  lemma StartReached(m: Machine, n: nat, patience: nat, clock: nat)
    requires 1 <= m.depth
    ensures Reached(m, Start(n, patience, clock), n)
    ensures Ongoing(m, Start(n, patience, clock), n, 0, Start(n, patience, clock), [])
  {
  }

  lemma {:induction false} RoundReached(m: Machine, f: Flow, n: nat)
    requires Reached(m, f, n)
    ensures Reached(m, Round(m, f), n)
  {
  }

  lemma {:induction false} RoundsReached(m: Machine, f: Flow, n: nat, r: nat)
    requires Reached(m, f, n)
    ensures Reached(m, Rounds(m, f, r), n)
  {
    hide Round;
    if r > 0 {
      RoundsReached(m, f, n, r - 1);
      RoundReached(m, Rounds(m, f, r - 1), n);
    }
  }

  lemma {:induction false} RoundProgress(m: Machine, f: Flow, n: nat)
    requires Reached(m, f, n) && !f.Finished()
    ensures Stuck(m, Round(m, f)) || Nearer(f, Round(m, f))
  {
    hide Machine.Filled, Machine.Drained, DrainedIdle, Machine.Moved, Machine.Settled;
  }

  /** A round after the first round, or before the others. */
  lemma {:induction false} RoundFirst(m: Machine, f: Flow, r: nat)
    requires m.Fits(f.at)
    ensures Rounds(m, Round(m, f), r) == Rounds(m, f, r + 1)
  {
    hide Round;
    if r > 0 {
      RoundFirst(m, f, r - 1);
    }
  }

  lemma {:induction false} RoundsJoin(m: Machine, f: Flow, r: nat, more: nat)
    requires m.Fits(f.at)
    ensures Rounds(m, Rounds(m, f, r), more) == Rounds(m, f, r + more)
  {
    hide Round;
    if more > 0 {
      RoundsJoin(m, f, r, more - 1);
    }
  }

  /** Whatever the hardware does, a transfer comes to its end or gets stuck. */
  lemma {:induction false} Ends(m: Machine, f: Flow, n: nat) returns (r: nat)
    requires Reached(m, f, n)
    ensures Rounds(m, f, r).Finished() || Stuck(m, Rounds(m, f, r))
    decreases f.toWrite, f.at.Work(), f.toRead, f.at.patience
  {
    hide Round;
    if f.Finished() || Stuck(m, f) {
      r := 0;
    } else if Stuck(m, Round(m, f)) {
      r := 1;
      RoundFirst(m, f, 0);
    } else {
      RoundProgress(m, f, n);
      RoundReached(m, f, n);
      r := Ends(m, Round(m, f), n);
      RoundFirst(m, f, r);
      r := r + 1;
    }
  }

  /** For every word that is going to be written, the number of words read when it is fetched. */
  function Leads(m: Machine, f: Flow, n: nat): (leads: seq<nat>)
    requires Reached(m, f, n)
    ensures |leads| <= f.toWrite
    decreases f.toWrite, f.at.Work(), f.toRead, f.at.patience
  {
    if f.Finished() then []
    else
      RoundProgress(m, f, n);
      RoundReached(m, f, n);
      Repeated(n - f.toRead, f.toWrite - Round(m, f).toWrite) +
      if Stuck(m, Round(m, f)) then [] else Leads(m, Round(m, f), n)
  }

  lemma StuckLeads(m: Machine, f: Flow, n: nat)
    requires Reached(m, f, n) && Stuck(m, f)
    ensures Leads(m, f, n) == []
  {
    StuckRound(m, f);
  }

  /** How far a run has come after so many rounds, with the leads of the words so far. */
  ghost predicate Ongoing(m: Machine, start: Flow, n: nat, rounds: nat, f: Flow, leads: seq<nat>) {
    && Reached(m, start, n) && Reached(m, f, n) && f == Rounds(m, start, rounds)
    && leads + Leads(m, f, n) == Leads(m, start, n)
  }

  /** The leads of a run that has ended or got stuck. */
  predicate LedBy(m: Machine, start: Flow, n: nat, leads: seq<nat>) {
    Reached(m, start, n) && leads == Leads(m, start, n)
  }

  lemma OneMoreRound(m: Machine, start: Flow, n: nat, rounds: nat, f: Flow, leads: seq<nat>)
    requires Ongoing(m, start, n, rounds, f, leads) && !f.Finished()
    ensures var g := Round(m, f);
            && (Stuck(m, g) || Nearer(f, g))
            && Ongoing(m, start, n, rounds + 1, g, leads + Repeated(n - f.toRead, f.toWrite - g.toWrite))
  {
    hide Round, Stuck, Reached, Nearer, Leads;
    RoundReached(m, f, n);
    RoundProgress(m, f, n);
    LeadsOn(m, f, n);
    var g := Round(m, f);
    var more, rest := Repeated(n - f.toRead, f.toWrite - g.toWrite), Leads(m, g, n);
    assert (leads + more) + rest == leads + (more + rest);
  }

  lemma LeadsOn(m: Machine, f: Flow, n: nat)
    requires Reached(m, f, n) && !f.Finished()
    ensures var g := Round(m, f);
            && Reached(m, g, n)
            && Leads(m, f, n) == Repeated(n - f.toRead, f.toWrite - g.toWrite) + Leads(m, g, n)
  {
    hide Round, Stuck, Reached, Nearer;
    RoundReached(m, f, n);
    if Stuck(m, Round(m, f)) {
      StuckLeads(m, Round(m, f), n);
    }
  }

  lemma RunOver(m: Machine, start: Flow, n: nat, rounds: nat, f: Flow, leads: seq<nat>)
    requires Ongoing(m, start, n, rounds, f, leads) && (f.Finished() || Stuck(m, f))
    ensures LedBy(m, start, n, leads)
  {
    if Stuck(m, f) {
      StuckLeads(m, f, n);
    }
  }

  /** Once stuck, always stuck: rounds change nothing but the number of accesses. */
  lemma {:induction false} StuckStays(m: Machine, f: Flow, r: nat)
    requires m.Fits(f.at) && Stuck(m, f)
    ensures Rounds(m, f, r) == f.(at := f.at.(clock := Rounds(m, f, r).at.clock)) && Stuck(m, Rounds(m, f, r))
  {
    hide Round;
    if r > 0 {
      StuckStays(m, f, r - 1);
      StuckRound(m, Rounds(m, f, r - 1));
    }
  }

  lemma StuckRound(m: Machine, f: Flow)
    requires m.Fits(f.at) && Stuck(m, f)
    ensures Round(m, f) == f.(at := f.at.(clock := Round(m, f).at.clock))
  {
  }

  /** Once over, always over. */
  lemma {:induction false} FinishedStays(m: Machine, f: Flow, r: nat)
    requires m.Fits(f.at) && f.Finished()
    ensures Rounds(m, f, r) == f
  {
    if r > 0 {
      FinishedStays(m, f, r - 1);
    }
  }

  /** Some round reads a word from an empty FIFO. */
  ghost predicate Underruns(m: Machine, f: Flow)
    requires m.Fits(f.at)
  {
    exists r: nat :: Rounds(m, f, r).empty > f.empty
  }

  /** No number of rounds is enough. */
  ghost predicate NeverEnds(m: Machine, f: Flow)
    requires m.Fits(f.at)
  {
    forall r: nat :: !Rounds(m, f, r).Finished()
  }

  /** What a run has come to decides both: it never ends exactly if it has got stuck, and it
      underran exactly if it has counted an empty read. */
  lemma OutcomeDecides(m: Machine, f: Flow, n: nat, r: nat)
    requires Reached(m, f, n) && f.empty == 0
    requires Rounds(m, f, r).Finished() || Stuck(m, Rounds(m, f, r))
    ensures NeverEnds(m, f) <==> Stuck(m, Rounds(m, f, r))
    ensures Underruns(m, f) <==> Rounds(m, f, r).empty > 0
    ensures NeverEnds(m, f) <==> Rounds(m, f, r).empty > 2 * m.depth + 1
    ensures (Underruns(m, f) ==> n > m.depth) && (NeverEnds(m, f) ==> n > 3 * m.depth + 1)
  {
    hide Round;
    var g := Rounds(m, f, r);
    RoundsReached(m, f, n, r);
    forall q: nat ensures Rounds(m, f, q).empty <= g.empty && (Stuck(m, g) ==> !Rounds(m, f, q).Finished()) {
      if q <= r {
        RoundsJoin(m, f, q, r - q);
        if Rounds(m, f, q).Finished() {
          FinishedStays(m, Rounds(m, f, q), r - q);
        }
      } else {
        RoundsJoin(m, f, r, q - r);
        if g.Finished() {
          FinishedStays(m, g, q - r);
        } else {
          StuckStays(m, g, q - r);
        }
      }
    }
  }

  /** What a run has come to, from where it started. */
  lemma Decided(m: Machine, start: Flow, n: nat, rounds: nat, f: Flow, leads: seq<nat>)
    requires Ongoing(m, start, n, rounds, f, leads) && start.empty == 0 && (f.Finished() || Stuck(m, f))
    ensures LedBy(m, start, n, leads)
    ensures NeverEnds(m, start) <==> Stuck(m, f)
    ensures Underruns(m, start) <==> f.empty > 0
    ensures (Underruns(m, start) ==> n > m.depth) && (NeverEnds(m, start) ==> n > 3 * m.depth + 1)
  {
    hide Underruns, NeverEnds;
    OutcomeDecides(m, start, n, rounds);
    RunOver(m, start, n, rounds, f, leads);
  }

  /** Until TX has been full no word is read, so the first FIFO's worth of words is fetched
      before anything is stored. */
  lemma LateLeads(m: Machine, n: nat, patience: nat, clock: nat)
    requires 1 <= m.depth
    ensures Reached(m, Start(n, patience, clock), n)
    ensures var leads := Leads(m, Start(n, patience, clock), n);
            forall i :: 0 <= i < |leads| && leads[i] > 0 ==> i >= m.depth
  {
    hide Machine.Filled, Machine.Drained, DrainedIdle, Machine.Moved, Machine.Settled;
    var f := Start(n, patience, clock);
    if n > 0 {
      var g := Round(m, f);
      assert g.toWrite == 0 || n - g.toWrite >= m.depth;
    }
  }

  // ----- the worst the hardware can do -----

  /** From a full TX FIFO, with everything else empty, when the moment comes. */
  lemma EmptyReads(m: Machine, full: Flow)
    requires m.Fits(full.at) && full.Balanced() && full.empty == 0 && full.toWrite > 0
    requires full.at.tx == m.depth && full.at.shift == 0 && full.at.rx == 0
             && m.plan(full.at.clock).steps == 2 * m.depth
    ensures DrainedIdle(m, m.Waited(m.Drained(m.Waited(full)))).empty == full.toWrite
  {
    hide Machine.Moved, Machine.Drained, Machine.Polled;
    AllSent(m, full.at.(clock := full.at.clock + 1));
    var idle := m.Waited(m.Drained(m.Waited(full)));
    assert idle.at.Words() == 0 && idle.toRead > 0;
    assert m.Popped(idle).empty == 1;
  }

  /** A message that outgrows the FIFO is cut off after one FIFO's worth of words. */
  lemma WaitingCutsOff(m: Machine, n: nat, patience: nat, clock: nat)
    requires 1 <= m.depth < n && m.plan == WaitUntil(clock + 1 + 2 * m.depth, m.depth)
    ensures Rounds(m, Start(n, patience, clock), 1).empty == n - m.depth
  {
    hide Machine.Filled, Machine.Drained, DrainedIdle, Machine.Polled;
    var f := Start(n, patience, clock);
    FillWaits(m, m.Waited(f), clock + 1 + 2 * m.depth);
    EmptyReads(m, m.Filled(m.Waited(f)));
    assert Rounds(m, f, 0) == f;
  }

  lemma WaitingIsWorst(m: Machine, n: nat, patience: nat, clock: nat)
    requires 1 <= m.depth < n && m.plan == WaitUntil(clock + 1 + 2 * m.depth, m.depth)
    ensures Underruns(m, Start(n, patience, clock))
    ensures NeverEnds(m, Start(n, patience, clock)) <==> n > 3 * m.depth + 1
  {
    hide Round;
    var f := Start(n, patience, clock);
    WaitingCutsOff(m, n, patience, clock);
    var r := Ends(m, f, n);
    OutcomeDecides(m, f, n, r);
    assert r > 0;
    RoundsJoin(m, f, 1, r - 1);
  }

  /** Hardware that makes a transfer of n words read a word that never arrived exists exactly
      if the words outgrow a FIFO, and hardware that keeps it from ever ending exactly if they
      outgrow three FIFOs and the wire. */
  lemma {:induction false} WorstCases(depth: nat, n: nat, patience: nat, clock: nat)
    requires 1 <= depth
    ensures (exists plan: Plan :: Underruns(Machine(depth, plan), Start(n, patience, clock))) <==> n > depth
    ensures (exists plan: Plan :: NeverEnds(Machine(depth, plan), Start(n, patience, clock))) <==> n > 3 * depth + 1
  {
    hide Round;
    var f := Start(n, patience, clock);
    forall plan: Plan
      ensures var m := Machine(depth, plan); (Underruns(m, f) ==> n > depth) && (NeverEnds(m, f) ==> n > 3 * depth + 1)
    {
      var m := Machine(depth, plan);
      var r := Ends(m, f, n);
      OutcomeDecides(m, f, n, r);
    }
    if n > depth {
      var m := Machine(depth, WaitUntil(clock + 1 + 2 * depth, depth));
      WaitingIsWorst(m, n, patience, clock);
      assert Underruns(m, f);
      if n > 3 * depth + 1 {
        assert NeverEnds(m, f);
      }
    }
  }

  // ----- hardware that never underruns -----

  /** The hardware takes a first word, waits until TX is full, and then finishes one word in
      every round, so that line 1088 never finds it idle while words are still to be written. */
  function Steady(start: nat, depth: nat): Plan {
    var first := start + 3 + 2 * depth;
    i => Choice(if i == start + 2 then 1 else if i >= first && (i - first) % 7 == 0 then 2 else 0, 10)
  }

  /** Between rounds, q rounds after the first. */
  function SteadyFlow(depth: nat, n: nat, start: nat, q: nat): Flow
    requires 1 <= depth && q + depth + 1 <= n
  {
    Flow(Fifos(depth - 1, 1, 0, 8, start + 7 + 2 * depth + 7 * q), n - depth - 1 - q, n - 1 - q, 0)
  }

  lemma {:induction false} SteadyFills(m: Machine, f: Flow, start: nat)
    requires m.Fits(f.at) && m.plan == Steady(start, m.depth)
    requires f.at.shift == 1 && f.at.rx == 0 && f.at.patience > 0 && m.depth - f.at.tx <= f.toWrite
    requires start + 3 <= f.at.clock && f.at.clock + 2 * (m.depth - f.at.tx) == start + 3 + 2 * m.depth
    ensures var patience := if f.at.tx < m.depth then 9 else f.at.patience;
            m.Filled(f) == f.(at := Fifos(m.depth, 1, 0, patience, start + 3 + 2 * m.depth),
                              toWrite := f.toWrite - (m.depth - f.at.tx))
    decreases m.depth - f.at.tx
  {
    if f.at.tx < m.depth {
      SteadyFills(m, m.Waited(m.Pushed(f)), start);
    }
  }

  lemma SteadyMoves(m: Machine, h: Fifos, start: nat, q: nat)
    requires 1 <= m.depth && m.plan == Steady(start, m.depth)
    requires h == Fifos(m.depth, 1, 0, 9, start + 3 + 2 * m.depth + 7 * q)
    ensures m.Settled(h) == Fifos(m.depth - 1, 1, 1, 10, h.clock + 1)
  {
    var d, c := m.depth, h.clock;
    assert m.plan(c).steps == 2;
    assert m.Moved(h.(clock := c + 1), 2) == m.Moved(Fifos(d, 0, 1, 9, c + 1), 1);
    assert m.Moved(Fifos(d, 0, 1, 9, c + 1), 1) == m.Moved(Fifos(d - 1, 1, 1, 9, c + 1), 0);
  }

  /** From a full TX FIFO one word is finished and read. */
  lemma SteadyReads(m: Machine, f: Flow, start: nat, q: nat)
    requires 1 <= m.depth && m.plan == Steady(start, m.depth) && f.toRead > 0
    requires f.at == Fifos(m.depth, 1, 0, 9, start + 3 + 2 * m.depth + 7 * q)
    ensures m.Drained(m.Waited(f)) == f.(at := Fifos(m.depth - 1, 1, 0, 9, f.at.clock + 3), toRead := f.toRead - 1)
  {
    hide Machine.Moved, Machine.Drained, Machine.Polled;
    var d, c := m.depth, f.at.clock;
    assert m.plan(c + 1) == Choice(0, 10) && m.plan(c + 2) == Choice(0, 10);
    SteadyMoves(m, f.at, start, q);
    var g := m.Waited(f);
    assert m.Taken(g.at) == Fifos(d - 1, 1, 0, 10, c + 2);
    var h := m.Waited(m.Popped(g));
    assert h == f.(at := Fifos(d - 1, 1, 0, 9, c + 3), toRead := f.toRead - 1);
    DrainsOn(m, g);
    DrainsOn(m, h);
  }

  /** The rest of a round from a full TX FIFO. */
  lemma SteadyDrains(m: Machine, f: Flow, start: nat, q: nat)
    requires 1 <= m.depth && m.plan == Steady(start, m.depth) && f.toRead > 0
    requires f.at == Fifos(m.depth, 1, 0, 9, start + 3 + 2 * m.depth + 7 * q)
    ensures DrainedIdle(m, m.Waited(m.Drained(m.Waited(f))))
         == f.(at := Fifos(m.depth - 1, 1, 0, 8, start + 7 + 2 * m.depth + 7 * q), toRead := f.toRead - 1)
  {
    SteadyReads(m, f, start, q);
    hide Machine.Drained, Machine.Moved;
    var h := m.Drained(m.Waited(f));
    assert m.plan(f.at.clock + 3).steps == 0;
    assert m.Waited(h) == h.(at := Fifos(m.depth - 1, 1, 0, 8, f.at.clock + 4));
  }

  lemma SteadyStarts(m: Machine, n: nat, patience: nat, start: nat)
    requires 1 <= m.depth && m.depth + 1 <= n && m.plan == Steady(start, m.depth)
    ensures Round(m, Start(n, patience, start)) == SteadyFlow(m.depth, n, start, 0)
  {
    hide Machine.Drained, DrainedIdle;
    var f := m.Waited(Start(n, patience, start));
    var h := Fifos(1, 0, 0, 10, start + 3);
    assert m.Moved(h, 1) == m.Moved(Fifos(0, 1, 0, 10, start + 3), 0);
    var g := m.Waited(m.Pushed(f));
    assert g == Flow(Fifos(0, 1, 0, 10, start + 3), n - 1, n, 0);
    SteadyFills(m, g, start);
    FillsOn(m, f);
    SteadyDrains(m, m.Filled(f), start, 0);
  }

  lemma SteadyGoesOn(m: Machine, n: nat, start: nat, q: nat)
    requires 1 <= m.depth && q + m.depth + 2 <= n && m.plan == Steady(start, m.depth)
    ensures Round(m, SteadyFlow(m.depth, n, start, q)) == SteadyFlow(m.depth, n, start, q + 1)
  {
    hide Machine.Drained, DrainedIdle, Machine.Filled, Machine.Moved, Machine.Polled;
    var d, f := m.depth, SteadyFlow(m.depth, n, start, q);
    var c := f.at.clock;
    assert m.plan(c) == Choice(0, 10) && m.plan(c + 1) == Choice(0, 10) && m.plan(c + 2) == Choice(0, 10);
    var g := m.Waited(f);
    assert g == f.(at := Fifos(d - 1, 1, 0, 7, c + 1));
    assert m.Written(g.at) == Fifos(d, 1, 0, 10, c + 2);
    var h := m.Waited(m.Pushed(g));
    assert h == f.(at := Fifos(d, 1, 0, 9, c + 3), toWrite := f.toWrite - 1);
    FillsOn(m, g);
    FillsOn(m, h);
    SteadyDrains(m, h, start, q + 1);
  }

  lemma {:induction false} SteadyLeadsFrom(m: Machine, n: nat, start: nat, q: nat)
    requires 1 <= m.depth && q + m.depth + 1 <= n && m.plan == Steady(start, m.depth)
    ensures var f := SteadyFlow(m.depth, n, start, q);
            && Reached(m, f, n) && |Leads(m, f, n)| == f.toWrite
            && forall i :: 0 <= i < f.toWrite ==> Leads(m, f, n)[i] == q + 1 + i
    decreases n - q
  {
    hide Round;
    var f := SteadyFlow(m.depth, n, start, q);
    if f.toWrite > 0 {
      SteadyGoesOn(m, n, start, q);
      SteadyLeadsFrom(m, n, start, q + 1);
    }
  }

  /** Steady hardware has answered i - depth words when word i is fetched. */
  lemma SteadyLeads(m: Machine, n: nat, patience: nat, start: nat)
    requires 1 <= m.depth && m.depth + 1 <= n && m.plan == Steady(start, m.depth)
    ensures Reached(m, Start(n, patience, start), n)
    ensures var leads := Leads(m, Start(n, patience, start), n);
            |leads| == n && forall i :: m.depth < i < n ==> leads[i] == i - m.depth
  {
    hide Round;
    SteadyStarts(m, n, patience, start);
    SteadyLeadsFrom(m, n, start, 0);
  }

  /** Hardware that waits until TX is full has everything read before word depth is fetched. */
  lemma WaitingLeads(m: Machine, n: nat, patience: nat, clock: nat)
    requires 1 <= m.depth < n && m.plan == WaitUntil(clock + 1 + 2 * m.depth, m.depth)
    ensures Reached(m, Start(n, patience, clock), n)
    ensures var leads := Leads(m, Start(n, patience, clock), n); m.depth < |leads| && leads[m.depth] == n
  {
    hide Round;
    var f := Start(n, patience, clock);
    WaitingFirst(m, n, patience, clock);
    var g := Round(m, f);
    RoundReached(m, f, n);
    WritesOn(m, g, n);
  }

  lemma WaitingFirst(m: Machine, n: nat, patience: nat, clock: nat)
    requires 1 <= m.depth < n && m.plan == WaitUntil(clock + 1 + 2 * m.depth, m.depth)
    ensures var g := Round(m, Start(n, patience, clock));
            g.toWrite == n - m.depth && g.toRead == 0 && g.at.Words() == 0 && g.empty == n - m.depth
  {
    hide Machine.Filled, Machine.Drained, DrainedIdle, Machine.Polled;
    var f := Start(n, patience, clock);
    FillWaits(m, m.Waited(f), clock + 1 + 2 * m.depth);
    EmptyReads(m, m.Filled(m.Waited(f)));
  }

  /** With nothing under way and words still to be written, a round writes the next one. */
  lemma WritesOn(m: Machine, f: Flow, n: nat)
    requires Reached(m, f, n) && f.toWrite > 0 && f.at.Words() == 0
    ensures |Leads(m, f, n)| > 0 && Leads(m, f, n)[0] == n - f.toRead
  {
    hide Machine.Drained, DrainedIdle, Machine.Moved;
    FillsOn(m, m.Waited(f));
    hide Machine.Filled;
    assert Round(m, f).toWrite < f.toWrite;
  }
}
