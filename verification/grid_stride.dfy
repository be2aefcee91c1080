/** Grid-stride kernels under every schedule. Thread t of T works through indices t, t + T,
    t + 2T, ...; a schedule says which thread moves next, and a thread that has left its loop
    does nothing. */
module GridStride {
  /** The index each thread is at. */
  ghost predicate Strides(pos: seq<nat>, threads: nat) {
    |pos| == threads > 0 && forall t :: 0 <= t < threads ==> pos[t] % threads == t
  }

  function FirstIndices(threads: nat): (pos: seq<nat>)
    ensures |pos| == threads && forall t :: 0 <= t < threads ==> pos[t] == t
  {
    seq(threads, t requires 0 <= t < threads => t)
  }

  ghost predicate Finished(pos: seq<nat>, n: nat) {
    forall t :: 0 <= t < |pos| ==> pos[t] >= n
  }

  /** Index i has been executed: its thread is past it. */
  predicate Past(pos: seq<nat>, i: nat)
    requires |pos| > 0
  {
    i < pos[i % |pos|]
  }

  lemma StrideNext(k: nat, threads: nat)
    requires threads > 0
    ensures (k + threads) % threads == k % threads
  {
    var q := k / threads;
    assert k + threads == (q + 1) * threads + k % threads;
    ModuloUnique(k + threads, threads, q + 1, k % threads);
  }

  lemma ModuloUnique(c: int, n: int, q: int, r: int)
    requires n > 0 && c == q * n + r && 0 <= r < n
    ensures c % n == r
  {
    var d := c / n - q;
    assert d * n == r - c % n;
    assert d > 0 ==> d * n >= n;
    assert d < 0 ==> d * n + n <= 0;
  }

  /** Between a thread's index and its next one there is no other index of that thread. */
  lemma NoneBetween(i: nat, k: nat, threads: nat)
    requires threads > 0 && i % threads == k % threads && k <= i < k + threads
    ensures i == k
  {
    var d := i / threads - k / threads;
    assert i - k == d * threads;
    assert d > 0 ==> d * threads >= threads;
    assert d < 0 ==> d * threads < 0;
  }

  function Advance(pos: seq<nat>, t: nat): seq<nat>
    requires t < |pos|
  {
    pos[t := pos[t] + |pos|]
  }

  /** One move executes exactly the index its thread was at. */
  lemma AdvanceExecutesOne(pos: seq<nat>, t: nat, i: nat)
    requires Strides(pos, |pos|) && t < |pos|
    ensures Strides(Advance(pos, t), |pos|)
    ensures !Past(pos, pos[t]) && (Past(Advance(pos, t), i) <==> Past(pos, i) || i == pos[t])
  {
    StrideNext(pos[t], |pos|);
    if i % |pos| == t && pos[t] <= i < pos[t] + |pos| {
      NoneBetween(i, pos[t], |pos|);
    }
  }

  lemma FinishedIsPast(pos: seq<nat>, n: nat, i: nat)
    requires |pos| > 0 && Finished(pos, n) && i < n
    ensures Past(pos, i)
  {
  }

  lemma FirstStrides(threads: nat, i: nat)
    requires threads > 0
    ensures Strides(FirstIndices(threads), threads) && !Past(FirstIndices(threads), i)
  {
    forall t | 0 <= t < threads
      ensures t % threads == t
    {
      ModuloUnique(t, threads, 0, t);
    }
    assert i >= i % threads;
  }

  // ----- kernels whose body computes entry i from entry i -----

  datatype Machine = Machine(pos: seq<nat>, out: seq<real>)

  /** One body: out[i] becomes f(i, out[i]). */
  function MapStep(f: (nat, real) -> real, n: nat, m: Machine, t: nat): (r: Machine)
    requires n <= |m.out|
    ensures |r.pos| == |m.pos| && |r.out| == |m.out|
  {
    if t < |m.pos| && m.pos[t] < n
    then Machine(Advance(m.pos, t), m.out[m.pos[t] := f(m.pos[t], m.out[m.pos[t]])])
    else m
  }

  function MapRun(f: (nat, real) -> real, n: nat, m: Machine, schedule: seq<nat>): (r: Machine)
    requires n <= |m.out|
    ensures |r.pos| == |m.pos| && |r.out| == |m.out|
    decreases |schedule|
  {
    if schedule == [] then m else MapRun(f, n, MapStep(f, n, m, schedule[0]), schedule[1..])
  }

  ghost predicate MapInvariant(f: (nat, real) -> real, n: nat, start: seq<real>, m: Machine) {
    && Strides(m.pos, |m.pos|) && n <= |start| == |m.out|
    && (forall i :: 0 <= i < n ==> m.out[i] == if Past(m.pos, i) then f(i, start[i]) else start[i])
    && (forall i :: n <= i < |start| ==> m.out[i] == start[i])
  }

  lemma MapStepKeeps(f: (nat, real) -> real, n: nat, start: seq<real>, m: Machine, t: nat)
    requires MapInvariant(f, n, start, m)
    ensures MapInvariant(f, n, start, MapStep(f, n, m, t))
  {
    if t < |m.pos| && m.pos[t] < n {
      var next := MapStep(f, n, m, t);
      AdvanceExecutesOne(m.pos, t, 0);
      forall i | 0 <= i < n
        ensures next.out[i] == if Past(next.pos, i) then f(i, start[i]) else start[i]
      {
        AdvanceExecutesOne(m.pos, t, i);
      }
    }
  }

  lemma {:induction false} MapRunKeeps(f: (nat, real) -> real, n: nat, start: seq<real>, m: Machine, schedule: seq<nat>)
    requires MapInvariant(f, n, start, m) && n <= |m.out|
    ensures MapInvariant(f, n, start, MapRun(f, n, m, schedule))
    decreases |schedule|
  {
    hide MapInvariant, MapStep;
    if schedule != [] {
      MapStepKeeps(f, n, start, m, schedule[0]);
      MapRunKeeps(f, n, start, MapStep(f, n, m, schedule[0]), schedule[1..]);
    }
  }

  /** Whatever the thread count and the schedule, a finished launch has executed every body
      once, on the value it found at the start: the loop of the CPU. */
  lemma EveryScheduleMaps(f: (nat, real) -> real, n: nat, start: seq<real>, threads: nat, schedule: seq<nat>)
    requires threads > 0 && n <= |start|
    requires Finished(MapRun(f, n, Machine(FirstIndices(threads), start), schedule).pos, n)
    ensures var out := MapRun(f, n, Machine(FirstIndices(threads), start), schedule).out;
            && |out| == |start| && (forall i :: 0 <= i < n ==> out[i] == f(i, start[i]))
            && (forall i :: n <= i < |start| ==> out[i] == start[i])
  {
    hide MapInvariant, MapRun, Finished;
    MapBegins(f, n, start, threads);
    MapRunKeeps(f, n, start, Machine(FirstIndices(threads), start), schedule);
    MapEnds(f, n, start, MapRun(f, n, Machine(FirstIndices(threads), start), schedule));
  }

  lemma MapBegins(f: (nat, real) -> real, n: nat, start: seq<real>, threads: nat)
    requires threads > 0 && n <= |start|
    ensures MapInvariant(f, n, start, Machine(FirstIndices(threads), start))
  {
    forall i: nat
      ensures Strides(FirstIndices(threads), threads) && !Past(FirstIndices(threads), i)
    {
      FirstStrides(threads, i);
    }
  }

  lemma MapEnds(f: (nat, real) -> real, n: nat, start: seq<real>, end: Machine)
    requires MapInvariant(f, n, start, end) && Finished(end.pos, n) && n <= |start|
    ensures |end.out| == |start|
    ensures forall i :: 0 <= i < n ==> end.out[i] == f(i, start[i])
    ensures forall i :: n <= i < |start| ==> end.out[i] == start[i]
  {
    forall i | 0 <= i < n
      ensures Past(end.pos, i)
    {
      FinishedIsPast(end.pos, n, i);
    }
  }

  /** What is left to do, counted in indices. */
  ghost function Left(pos: seq<nat>, n: nat, threads: nat): nat
    requires threads <= |pos|
  {
    if threads == 0 then 0 else Left(pos, n, threads - 1) + if pos[threads - 1] < n then n - pos[threads - 1] else 0
  }

  lemma {:induction false} LeftAfter(pos: seq<nat>, n: nat, t: nat, threads: nat)
    requires t < |pos| && threads <= |pos| && pos[t] < n
    ensures t < threads ==> Left(Advance(pos, t), n, threads) < Left(pos, n, threads)
    ensures t >= threads ==> Left(Advance(pos, t), n, threads) == Left(pos, n, threads)
  {
    if threads > 0 {
      LeftAfter(pos, n, t, threads - 1);
    }
  }

  /** As long as a thread is left in its loop the launch can go on, and it cannot go on for
      ever: every state leads to a finished one. */
  lemma {:induction false} LaunchCanFinish(f: (nat, real) -> real, n: nat, m: Machine) returns (schedule: seq<nat>)
    requires n <= |m.out| && |m.pos| > 0
    ensures Finished(MapRun(f, n, m, schedule).pos, n)
    decreases Left(m.pos, n, |m.pos|)
  {
    if t: nat :| t < |m.pos| && m.pos[t] < n {
      LeftAfter(m.pos, n, t, |m.pos|);
      var rest := LaunchCanFinish(f, n, MapStep(f, n, m, t));
      schedule := [t] + rest;
      assert schedule[1..] == rest;
    } else {
      schedule := [];
    }
  }
}
