/** The compare-and-swap loops behind atomic_min and atomic_max on doubles, run by any
    number of threads under any interleaving. Values are compared as reals. */
module GpuAtomics {

  datatype Kind = Min | Max

  /** The early exit of the loop: the stored value needs no update. */
  predicate Settled(kind: Kind, stored: real, value: real) {
    match kind
    case Min => stored <= value
    case Max => stored >= value
  }

  /** Where a thread is: about to read the cell, at the top of the loop with the value it
      last saw, about to swap, or finished. */
  datatype Phase = Start | Top(seen: real) | Swap(assumed: real) | Done

  datatype Machine = Machine(cell: real, pc: seq<Phase>)

  function Initial(start: real, n: nat): Machine {
    Machine(start, seq(n, i => Start))
  }

  /** One atomic action of a thread that submits value: what the cell and its phase become. */
  function Act(kind: Kind, cell: real, p: Phase, value: real): (real, Phase) {
    match p
    case Start => (cell, Top(cell))
    case Top(seen) => (cell, if Settled(kind, seen, value) then Done else Swap(seen))
    case Swap(assumed) => if cell == assumed then (value, Done) else (cell, Top(cell))
    case Done => (cell, Done)
  }

  /** One action of thread t, which submits vals[t]. */
  function Step(kind: Kind, vals: seq<real>, m: Machine, t: nat): Machine
    requires |m.pc| == |vals| && t < |vals|
  {
    var next := Act(kind, m.cell, m.pc[t], vals[t]);
    Machine(next.0, m.pc[t := next.1])
  }

  predicate ThreadsOf(schedule: seq<nat>, n: nat) {
    forall k :: 0 <= k < |schedule| ==> schedule[k] < n
  }

  function Run(kind: Kind, vals: seq<real>, m: Machine, schedule: seq<nat>): (r: Machine)
    requires |m.pc| == |vals| && ThreadsOf(schedule, |vals|)
    ensures |r.pc| == |vals|
    decreases |schedule|
  {
    if schedule == [] then m
    else Run(kind, vals, Step(kind, vals, m, schedule[0]), schedule[1..])
  }

  ghost predicate AllDone(m: Machine) {
    forall t :: 0 <= t < |m.pc| ==> m.pc[t].Done?
  }

  // ----- safety: the cell ends as the extreme value -----

  /** Seen values are old values of the cell, finished threads have been served, and the
      cell only ever holds the start value or a submitted one. */
  ghost predicate Inv(kind: Kind, start: real, vals: seq<real>, m: Machine) {
    && |m.pc| == |vals|
    && (m.cell == start || m.cell in vals)
    && Settled(kind, m.cell, start)
    && (forall t :: 0 <= t < |vals| ==> ThreadInv(kind, m.cell, vals[t], m.pc[t]))
  }

  predicate ThreadInv(kind: Kind, cell: real, value: real, p: Phase) {
    match p
    case Start => true
    case Top(seen) => Settled(kind, cell, seen)
    case Swap(assumed) => Settled(kind, cell, assumed) && !Settled(kind, assumed, value)
    case Done => Settled(kind, cell, value)
  }

  lemma StepKeepsInv(kind: Kind, start: real, vals: seq<real>, m: Machine, t: nat)
    requires Inv(kind, start, vals, m) && t < |vals|
    ensures Inv(kind, start, vals, Step(kind, vals, m, t))
    ensures Settled(kind, Step(kind, vals, m, t).cell, m.cell)
  {
    assert ThreadInv(kind, m.cell, vals[t], m.pc[t]);
    var m' := Step(kind, vals, m, t);
    forall u | 0 <= u < |vals|
      ensures ThreadInv(kind, m'.cell, vals[u], m'.pc[u])
    {
      assert ThreadInv(kind, m.cell, vals[u], m.pc[u]);
    }
  }

  lemma {:induction false} RunKeepsInv(kind: Kind, start: real, vals: seq<real>, m: Machine, schedule: seq<nat>)
    requires Inv(kind, start, vals, m) && ThreadsOf(schedule, |vals|)
    ensures Inv(kind, start, vals, Run(kind, vals, m, schedule))
    ensures Settled(kind, Run(kind, vals, m, schedule).cell, m.cell)
    decreases |schedule|
  {
    if schedule != [] {
      StepKeepsInv(kind, start, vals, m, schedule[0]);
      RunKeepsInv(kind, start, vals, Step(kind, vals, m, schedule[0]), schedule[1..]);
    }
  }

  /** The value is one of the candidates and no candidate beats it. */
  ghost predicate IsExtreme(kind: Kind, start: real, vals: seq<real>, x: real) {
    && (x == start || x in vals)
    && Settled(kind, x, start)
    && forall t :: 0 <= t < |vals| ==> Settled(kind, x, vals[t])
  }

  /** Under every interleaving the cell moves monotonically, and once all threads are
      done it holds the minimum (maximum) of its start value and all submitted values. */
  lemma EveryInterleavingFindsTheExtreme(kind: Kind, start: real, vals: seq<real>, schedule: seq<nat>)
    requires ThreadsOf(schedule, |vals|)
    ensures var m := Run(kind, vals, Initial(start, |vals|), schedule);
            Settled(kind, m.cell, start) && (AllDone(m) ==> IsExtreme(kind, start, vals, m.cell))
  {
    RunKeepsInv(kind, start, vals, Initial(start, |vals|), schedule);
    var m := Run(kind, vals, Initial(start, |vals|), schedule);
    if AllDone(m) {
      forall t | 0 <= t < |vals|
        ensures Settled(kind, m.cell, vals[t])
      {
        assert ThreadInv(kind, m.cell, vals[t], m.pc[t]);
      }
    }
  }

  lemma ExtremeIsUnique(kind: Kind, start: real, vals: seq<real>, x: real, y: real)
    requires IsExtreme(kind, start, vals, x) && IsExtreme(kind, start, vals, y)
    ensures x == y
  {
  }

  /** The extreme value is unique, so all interleavings agree. */
  lemma InterleavingsAgree(kind: Kind, start: real, vals: seq<real>, s1: seq<nat>, s2: seq<nat>)
    requires ThreadsOf(s1, |vals|) && ThreadsOf(s2, |vals|)
    requires AllDone(Run(kind, vals, Initial(start, |vals|), s1))
    requires AllDone(Run(kind, vals, Initial(start, |vals|), s2))
    ensures Run(kind, vals, Initial(start, |vals|), s1).cell == Run(kind, vals, Initial(start, |vals|), s2).cell
  {
    EveryInterleavingFindsTheExtreme(kind, start, vals, s1);
    EveryInterleavingFindsTheExtreme(kind, start, vals, s2);
    ExtremeIsUnique(kind, start, vals, Run(kind, vals, Initial(start, |vals|), s1).cell,
                    Run(kind, vals, Initial(start, |vals|), s2).cell);
  }

  // ----- termination: failed swaps are paid for by successful ones -----

  /** A thread whose last look at the cell is out of date has two more actions to make
      than one that is up to date. */
  function Weight(cell: real, p: Phase): nat {
    match p
    case Start => 5
    case Top(seen) => if seen == cell then 2 else 4
    case Swap(assumed) => if assumed == cell then 1 else 3
    case Done => 0
  }

  function Weights(cell: real, pc: seq<Phase>): nat {
    if pc == [] then 0 else Weight(cell, pc[0]) + Weights(cell, pc[1..])
  }

  function Live(pc: seq<Phase>): nat {
    if pc == [] then 0 else (if pc[0].Done? then 0 else 1) + Live(pc[1..])
  }

  function Potential(m: Machine): nat {
    2 * |m.pc| * Live(m.pc) + Weights(m.cell, m.pc)
  }

  lemma {:induction false} Replace(cell: real, pc: seq<Phase>, t: nat, p: Phase)
    requires t < |pc|
    ensures Weights(cell, pc[t := p]) == Weights(cell, pc) - Weight(cell, pc[t]) + Weight(cell, p)
    ensures Live(pc[t := p]) == Live(pc) - (if pc[t].Done? then 0 else 1) + (if p.Done? then 0 else 1)
    decreases t
  {
    if t > 0 {
      Replace(cell, pc[1..], t - 1, p);
      assert pc[t := p][1..] == pc[1..][t - 1 := p];
    } else {
      assert pc[t := p][1..] == pc[1..];
    }
  }

  lemma {:induction false} StalenessCosts(cell: real, cell': real, pc: seq<Phase>)
    ensures Weights(cell', pc) <= Weights(cell, pc) + 2 * |pc|
    decreases |pc|
  {
    if pc != [] {
      StalenessCosts(cell, cell', pc[1..]);
    }
  }

  lemma {:induction false} LiveBounds(cell: real, pc: seq<Phase>)
    ensures Live(pc) <= |pc| && Weights(cell, pc) <= 5 * |pc|
    decreases |pc|
  {
    if pc != [] {
      LiveBounds(cell, pc[1..]);
    }
  }

  /** Every action of an unfinished thread uses up potential. A failed swap does so because
      a successful one, which paid for all the others, happened since the thread looked. */
  lemma StepUsesPotential(kind: Kind, vals: seq<real>, m: Machine, t: nat)
    requires |m.pc| == |vals| && t < |vals| && !m.pc[t].Done?
    ensures Potential(Step(kind, vals, m, t)) < Potential(m)
  {
    var m' := Step(kind, vals, m, t);
    Replace(m.cell, m.pc, t, m'.pc[t]);
    if m.pc[t].Swap? && m.cell == m.pc[t].assumed {
      StalenessCosts(m.cell, m'.cell, m'.pc);
      SuccessPays(|m.pc|, Live(m.pc));
    } else if m'.pc[t].Done? {
      SuccessPays(|m.pc|, Live(m.pc));
    }
  }

  lemma SuccessPays(n: nat, live: nat)
    ensures 2 * n * (live - 1) == 2 * n * live - 2 * n
  {
  }

  /** A schedule in which every step is made by an unfinished thread. */
  predicate Effective(kind: Kind, vals: seq<real>, m: Machine, schedule: seq<nat>)
    requires |m.pc| == |vals| && ThreadsOf(schedule, |vals|)
    decreases |schedule|
  {
    schedule == [] ||
    (!m.pc[schedule[0]].Done? && Effective(kind, vals, Step(kind, vals, m, schedule[0]), schedule[1..]))
  }

  lemma {:induction false} EffectiveRunsUsePotential(kind: Kind, vals: seq<real>, m: Machine, schedule: seq<nat>)
    requires |m.pc| == |vals| && ThreadsOf(schedule, |vals|)
    requires Effective(kind, vals, m, schedule)
    ensures |schedule| + Potential(Run(kind, vals, m, schedule)) <= Potential(m)
    decreases |schedule|
  {
    if schedule != [] {
      StepUsesPotential(kind, vals, m, schedule[0]);
      EffectiveRunsUsePotential(kind, vals, Step(kind, vals, m, schedule[0]), schedule[1..]);
    }
  }

  lemma TimesIsMonotone(a: nat, b: nat, c: nat)
    requires b <= c
    ensures a * b <= a * c
  {
  }

  /** A swap only fails after another thread has strictly improved the cell since this
      thread looked at it. */
  lemma FailedSwapWasOvertaken(kind: Kind, start: real, vals: seq<real>, m: Machine, t: nat)
    requires Inv(kind, start, vals, m) && t < |vals| && m.pc[t].Swap?
    ensures m.cell == m.pc[t].assumed <==> Step(kind, vals, m, t).pc[t].Done?
    ensures m.cell != m.pc[t].assumed ==> !Settled(kind, m.pc[t].assumed, m.cell)
  {
    assert ThreadInv(kind, m.cell, vals[t], m.pc[t]);
  }

  /** No interleaving of n threads takes more than 2n^2 + 5n steps, and until all are done
      any unfinished thread can take the next one: the loops terminate whatever happens. */
  lemma EveryInterleavingTerminates(kind: Kind, start: real, vals: seq<real>, schedule: seq<nat>)
    requires ThreadsOf(schedule, |vals|)
    requires Effective(kind, vals, Initial(start, |vals|), schedule)
    ensures |schedule| <= 2 * |vals| * |vals| + 5 * |vals|
  {
    var m := Initial(start, |vals|);
    EffectiveRunsUsePotential(kind, vals, m, schedule);
    LiveBounds(m.cell, m.pc);
    TimesIsMonotone(2 * |vals|, Live(m.pc), |vals|);
  }
}
