/** Grid-stride kernels whose threads clear cells and add to them, one memory operation at a
    time: any thread may move between any two operations of another. Index i of the launch
    stands for the operations ops[i], made in order by the thread the index belongs to. An
    addition is one step, as it is for an atomic one, or for a plain one to a cell of that
    index alone. */
module GpuOperations {
  import opened GridStride
  import opened RealSums

  datatype Op = Clear(cell: nat) | Add(cell: nat, value: real)

  /** The index each thread is at, how many of its operations it has made, and the cells. */
  datatype Launch = Launch(pos: seq<nat>, done: seq<nat>, out: seq<real>)

  ghost predicate Fits(ops: seq<seq<Op>>, cells: nat) {
    forall i, k :: 0 <= i < |ops| && 0 <= k < |ops[i]| ==> ops[i][k].cell < cells
  }

  function Make(op: Op, out: seq<real>): (r: seq<real>)
    ensures |r| == |out|
  {
    if op.cell >= |out| then out
    else out[op.cell := match op case Clear(c) => 0.0 case Add(c, v) => out[c] + v]
  }

  /** Thread t makes its next operation, or goes on to its next index. */
  function Step(ops: seq<seq<Op>>, m: Launch, t: nat): (r: Launch)
    requires |m.pos| == |m.done|
    ensures |r.pos| == |r.done| == |m.pos| && |r.out| == |m.out|
  {
    if t >= |m.pos| || m.pos[t] >= |ops| then m
    else if m.done[t] < |ops[m.pos[t]]| then
      Launch(m.pos, m.done[t := m.done[t] + 1], Make(ops[m.pos[t]][m.done[t]], m.out))
    else Launch(Advance(m.pos, t), m.done[t := 0], m.out)
  }

  function Run(ops: seq<seq<Op>>, m: Launch, schedule: seq<nat>): (r: Launch)
    requires |m.pos| == |m.done|
    ensures |r.pos| == |r.done| == |m.pos| && |r.out| == |m.out|
    decreases |schedule|
  {
    if schedule == [] then m else Run(ops, Step(ops, m, schedule[0]), schedule[1..])
  }

  function Begin(threads: nat, start: seq<real>): (m: Launch)
    ensures |m.pos| == |m.done| == threads && m.out == start
  {
    Launch(FirstIndices(threads), seq(threads, _ => 0), start)
  }

  // ----- what the operations amount to -----

  /** Cell c, holding x, after the first n operations of a list. */
  function After(ops: seq<Op>, n: nat, c: nat, x: real): real
    requires n <= |ops|
  {
    if n == 0 then x
    else if ops[n - 1].cell != c then After(ops, n - 1, c, x)
    else match ops[n - 1]
      case Clear(_) => 0.0
      case Add(_, v) => After(ops, n - 1, c, x) + v
  }

  predicate Touches(ops: seq<Op>, c: nat) {
    exists k :: 0 <= k < |ops| && ops[k].cell == c
  }

  /** A cell that one index clears is touched by no other. */
  ghost predicate ClearsOwn(ops: seq<seq<Op>>) {
    forall i, k, j :: 0 <= i < |ops| && 0 <= k < |ops[i]| && ops[i][k].Clear? && 0 <= j < |ops| && j != i ==>
                        !Touches(ops[j], ops[i][k].cell)
  }

  lemma {:induction false} Untouched(ops: seq<Op>, n: nat, c: nat, x: real)
    requires n <= |ops| && !Touches(ops, c)
    ensures After(ops, n, c, x) == x
  {
    if n > 0 {
      Untouched(ops, n - 1, c, x);
    }
  }

  /** How many operations of index i have been made. */
  function Made(ops: seq<seq<Op>>, m: Launch, i: nat): (n: nat)
    requires |m.pos| == |m.done| > 0 && i < |ops|
    ensures n <= |ops[i]|
  {
    var t := i % |m.pos|;
    if i < m.pos[t] then |ops[i]|
    else if i == m.pos[t] && m.done[t] <= |ops[i]| then m.done[t] else 0
  }

  /** What each index has changed cell c by, when the cell held x at first. */
  ghost function Changes(ops: seq<seq<Op>>, m: Launch, c: nat, x: real): (r: seq<real>)
    requires |m.pos| == |m.done| > 0
    ensures |r| == |ops|
    ensures forall i :: 0 <= i < |r| ==> r[i] == After(ops[i], Made(ops, m, i), c, x) - x
  {
    seq(|ops|, i requires 0 <= i < |ops| => After(ops[i], Made(ops, m, i), c, x) - x)
  }

  // ----- one step -----

  predicate Makes(ops: seq<seq<Op>>, m: Launch, t: nat) {
    t < |m.pos| == |m.done| && m.pos[t] < |ops| && m.done[t] < |ops[m.pos[t]]|
  }

  ghost predicate Placed(ops: seq<seq<Op>>, m: Launch) {
    && |m.pos| == |m.done| > 0 && Strides(m.pos, |m.pos|)
    && forall t :: 0 <= t < |m.pos| ==> m.done[t] <= if m.pos[t] < |ops| then |ops[m.pos[t]]| else 0
  }

  /** A step makes one more operation of its thread's index, or none at all. */
  lemma MadeAfter(ops: seq<seq<Op>>, m: Launch, t: nat, i: nat)
    requires Placed(ops, m) && i < |ops|
    ensures Made(ops, Step(ops, m, t), i) == Made(ops, m, i) + if Makes(ops, m, t) && i == m.pos[t] then 1 else 0
  {
    if t < |m.pos| && m.pos[t] < |ops| && !Makes(ops, m, t) {
      AdvanceExecutesOne(m.pos, t, i);
    }
  }

  lemma StepPlaced(ops: seq<seq<Op>>, m: Launch, t: nat)
    requires Placed(ops, m)
    ensures Placed(ops, Step(ops, m, t))
  {
    if t < |m.pos| && m.pos[t] < |ops| && !Makes(ops, m, t) {
      AdvanceExecutesOne(m.pos, t, 0);
    }
  }

  ghost predicate Invariant(ops: seq<seq<Op>>, start: seq<real>, m: Launch) {
    && Placed(ops, m) && |m.out| == |start|
    && (forall c :: 0 <= c < |start| ==> m.out[c] == start[c] + SumOf(Changes(ops, m, c, start[c])))
  }

  /** Only the index of the step can change what it has done to the cell. */
  lemma OtherChanges(ops: seq<seq<Op>>, m: Launch, t: nat, c: nat, x: real)
    requires Placed(ops, m)
    ensures var next := Step(ops, m, t);
            forall i :: 0 <= i < |ops| && !(Makes(ops, m, t) && i == m.pos[t]) ==>
                          Changes(ops, next, c, x)[i] == Changes(ops, m, c, x)[i]
  {
    hide Step, Made, After;
    forall i | 0 <= i < |ops| && !(Makes(ops, m, t) && i == m.pos[t])
      ensures Changes(ops, Step(ops, m, t), c, x)[i] == Changes(ops, m, c, x)[i]
    {
      MadeAfter(ops, m, t, i);
    }
  }

  lemma MadeSoFar(ops: seq<seq<Op>>, m: Launch, t: nat)
    requires Placed(ops, m) && Makes(ops, m, t)
    ensures Made(ops, m, m.pos[t]) == m.done[t]
    ensures Step(ops, m, t).out == Make(ops[m.pos[t]][m.done[t]], m.out)
  {
  }

  lemma CellMade(ops: seq<seq<Op>>, start: seq<real>, m: Launch, t: nat, c: nat)
    requires Invariant(ops, start, m) && Fits(ops, |start|) && ClearsOwn(ops) && c < |start| && Makes(ops, m, t)
    ensures Step(ops, m, t).out[c] == start[c] + SumOf(Changes(ops, Step(ops, m, t), c, start[c]))
  {
    hide Step, Made;
    var next, x, r, d := Step(ops, m, t), start[c], m.pos[t], m.done[t];
    var before, after := Changes(ops, m, c, x), Changes(ops, next, c, x);
    OtherChanges(ops, m, t, c, x);
    MadeAfter(ops, m, t, r);
    MadeSoFar(ops, m, t);
    SumChanged(before, after, r, |ops|);
    if ops[r][d] == Clear(c) {
      forall i | 0 <= i < |ops| && i != r
        ensures before[i] == 0.0
      {
        Untouched(ops[i], Made(ops, m, i), c, x);
      }
      SumSingle(before, r);
    }
  }

  lemma StepKeeps(ops: seq<seq<Op>>, start: seq<real>, m: Launch, t: nat)
    requires Invariant(ops, start, m) && Fits(ops, |start|) && ClearsOwn(ops)
    ensures Invariant(ops, start, Step(ops, m, t))
  {
    hide Made, After, ClearsOwn;
    StepPlaced(ops, m, t);
    forall c | 0 <= c < |start|
      ensures Step(ops, m, t).out[c] == start[c] + SumOf(Changes(ops, Step(ops, m, t), c, start[c]))
    {
      if Makes(ops, m, t) {
        CellMade(ops, start, m, t, c);
      } else {
        OtherChanges(ops, m, t, c, start[c]);
        assert Changes(ops, Step(ops, m, t), c, start[c]) == Changes(ops, m, c, start[c]);
      }
    }
  }

  // ----- a whole launch -----

  lemma {:induction false} RunKeeps(ops: seq<seq<Op>>, start: seq<real>, m: Launch, schedule: seq<nat>)
    requires Invariant(ops, start, m) && |m.pos| == |m.done| && Fits(ops, |start|) && ClearsOwn(ops)
    ensures Invariant(ops, start, Run(ops, m, schedule))
    decreases |schedule|
  {
    hide Invariant, Step, Fits, ClearsOwn;
    if schedule != [] {
      StepKeeps(ops, start, m, schedule[0]);
      RunKeeps(ops, start, Step(ops, m, schedule[0]), schedule[1..]);
    }
  }

  lemma BeginsInvariant(ops: seq<seq<Op>>, start: seq<real>, threads: nat)
    requires threads > 0
    ensures Invariant(ops, start, Begin(threads, start))
  {
    var m := Begin(threads, start);
    FirstStrides(threads, 0);
    forall c | 0 <= c < |start|
      ensures SumOf(Changes(ops, m, c, start[c])) == 0.0
    {
      forall i | 0 <= i < |ops|
        ensures Made(ops, m, i) == 0
      {
        FirstStrides(threads, i);
      }
      SumZero(Changes(ops, m, c, start[c]), |ops|);
    }
  }

  /** Every thread has left its loop. */
  ghost predicate Completes(ops: seq<seq<Op>>, start: seq<real>, threads: nat, schedule: seq<nat>) {
    Finished(Run(ops, Begin(threads, start), schedule).pos, |ops|)
  }

  /** What a finished launch leaves in the cells. */
  ghost function Result(ops: seq<seq<Op>>, start: seq<real>, threads: nat, schedule: seq<nat>): (r: seq<real>)
    ensures |r| == |start|
  {
    Run(ops, Begin(threads, start), schedule).out
  }

  /** What each index changes cell c by in all. */
  ghost function Totals(ops: seq<seq<Op>>, c: nat, x: real): (r: seq<real>)
    ensures |r| == |ops| && forall i :: 0 <= i < |r| ==> r[i] == After(ops[i], |ops[i]|, c, x) - x
  {
    seq(|ops|, i requires 0 <= i < |ops| => After(ops[i], |ops[i]|, c, x) - x)
  }

  /** For every thread count and schedule, a finished launch has changed every cell by what
      each index alone would change it by. */
  lemma EveryScheduleAdds(ops: seq<seq<Op>>, start: seq<real>, threads: nat, schedule: seq<nat>)
    requires threads > 0 && Fits(ops, |start|) && ClearsOwn(ops) && Completes(ops, start, threads, schedule)
    ensures forall c :: 0 <= c < |start| ==>
              Result(ops, start, threads, schedule)[c] == start[c] + SumOf(Totals(ops, c, start[c]))
  {
    hide Fits, ClearsOwn, After;
    BeginsInvariant(ops, start, threads);
    RunKeeps(ops, start, Begin(threads, start), schedule);
    var end := Run(ops, Begin(threads, start), schedule);
    forall c | 0 <= c < |start|
      ensures Changes(ops, end, c, start[c]) == Totals(ops, c, start[c])
    {
      forall i | 0 <= i < |ops|
        ensures Made(ops, end, i) == |ops[i]|
      {
        FinishedIsPast(end.pos, |ops|, i);
      }
    }
  }

  /** A cell that only one index touches ends as that index leaves it. */
  lemma OwnCell(ops: seq<seq<Op>>, c: nat, x: real, r: nat)
    requires r < |ops| && forall i :: 0 <= i < |ops| && i != r ==> !Touches(ops[i], c)
    ensures x + SumOf(Totals(ops, c, x)) == After(ops[r], |ops[r]|, c, x)
  {
    hide Touches;
    forall i | 0 <= i < |ops| && i != r
      ensures Totals(ops, c, x)[i] == 0.0
    {
      Untouched(ops[i], |ops[i]|, c, x);
    }
    SumSingle(Totals(ops, c, x), r);
  }

  lemma FreeCell(ops: seq<seq<Op>>, c: nat, x: real)
    requires forall i :: 0 <= i < |ops| ==> !Touches(ops[i], c)
    ensures SumOf(Totals(ops, c, x)) == 0.0
  {
    hide Touches;
    forall i | 0 <= i < |ops|
      ensures Totals(ops, c, x)[i] == 0.0
    {
      Untouched(ops[i], |ops[i]|, c, x);
    }
    SumZero(Totals(ops, c, x), |ops|);
  }

  // ----- launches end -----

  /** How many steps index i still takes: its operations, and leaving it. */
  function Pending(ops: seq<seq<Op>>, m: Launch, i: nat): nat
    requires |m.pos| == |m.done| > 0 && i < |ops|
  {
    |ops[i]| - Made(ops, m, i) + if Past(m.pos, i) then 0 else 1
  }

  function Remaining(ops: seq<seq<Op>>, m: Launch, n: nat): nat
    requires |m.pos| == |m.done| > 0 && n <= |ops|
  {
    if n == 0 then 0 else Remaining(ops, m, n - 1) + Pending(ops, m, n - 1)
  }

  predicate Active(ops: seq<seq<Op>>, m: Launch, t: nat) {
    t < |m.pos| && m.pos[t] < |ops|
  }

  lemma PendingAfter(ops: seq<seq<Op>>, m: Launch, t: nat, i: nat)
    requires Placed(ops, m) && Active(ops, m, t) && i < |ops|
    ensures Pending(ops, Step(ops, m, t), i) == Pending(ops, m, i) - if i == m.pos[t] then 1 else 0
  {
    MadeAfter(ops, m, t, i);
    AdvanceExecutesOne(m.pos, t, i);
  }

  lemma {:induction false} RemainingAfter(ops: seq<seq<Op>>, m: Launch, t: nat, n: nat)
    requires Placed(ops, m) && Active(ops, m, t) && n <= |ops|
    ensures Remaining(ops, Step(ops, m, t), n) == Remaining(ops, m, n) - if m.pos[t] < n then 1 else 0
  {
    hide Step, Placed, Pending;
    if n > 0 {
      RemainingAfter(ops, m, t, n - 1);
      PendingAfter(ops, m, t, n - 1);
    }
  }

  /** Every state of a launch leads to a finished one, and every step of a thread still in its
      loop brings it nearer. */
  lemma {:induction false} LaunchCanFinish(ops: seq<seq<Op>>, m: Launch) returns (schedule: seq<nat>)
    requires Placed(ops, m) && |m.pos| == |m.done| > 0
    ensures Finished(Run(ops, m, schedule).pos, |ops|)
    ensures |schedule| == Remaining(ops, m, |ops|)
    decreases Remaining(ops, m, |ops|)
  {
    hide Step, Placed, Pending;
    if t: nat :| Active(ops, m, t) {
      RemainingAfter(ops, m, t, |ops|);
      StepPlaced(ops, m, t);
      var rest := LaunchCanFinish(ops, Step(ops, m, t));
      schedule := [t] + rest;
      assert schedule[1..] == rest;
    } else {
      NothingRemains(ops, m, |ops|);
      schedule := [];
    }
  }

  lemma {:induction false} NothingRemains(ops: seq<seq<Op>>, m: Launch, n: nat)
    requires Placed(ops, m) && n <= |ops| && forall t: nat :: !Active(ops, m, t)
    ensures Remaining(ops, m, n) == 0 && Finished(m.pos, |ops|)
  {
    forall t | 0 <= t < |m.pos|
      ensures m.pos[t] >= |ops|
    {
      assert !Active(ops, m, t);
    }
    if n > 0 {
      NothingRemains(ops, m, n - 1);
      FinishedIsPast(m.pos, |ops|, n - 1);
    }
  }

  /** So some schedule completes a launch, from the beginning. */
  lemma SomeScheduleCompletes(ops: seq<seq<Op>>, start: seq<real>, threads: nat) returns (schedule: seq<nat>)
    requires threads > 0
    ensures Completes(ops, start, threads, schedule)
  {
    FirstStrides(threads, 0);
    schedule := LaunchCanFinish(ops, Begin(threads, start));
  }
}
