/** The Batch worker pool: one dispatcher, an unbuffered channel of slot indices, a fixed number of
    workers, and a wait group. Each worker writes the slot whose index it received. */
module WorkerPool {
  import opened Sequences
  import opened Wrappers

  const OBJECT_CHECK_CONCURRENCY: int := 16

  /** New: a non-positive option selects the default. */
  function Concurrency(option: int): int {
    if option <= 0 then OBJECT_CHECK_CONCURRENCY else option
  }

  function Min(a: int, b: int): int { if a <= b then a else b }

  function Max(a: int, b: int): int { if a >= b then a else b }

  /** One call of processObjects. `answers(i, r)` says that processing input i may give r: the store
      can answer differently at different moments, so a result is a relation and not a function. */
  datatype Job<!I, !R(!new)> = Job(concurrency: int, input: seq<I>, answers: (I, R) -> bool) {
    function WorkerCount(): nat {
      Max(0, Min(concurrency, Max(1, |input|)))
    }

    /** Every processing ends with some result. */
    ghost predicate Terminates() {
      forall i :: 0 <= i < |input| ==> Ends(input[i])
    }

    ghost predicate Ends(i: I) {
      exists r :: answers(i, r)
    }
  }

  datatype Worker = Waiting | Working(index: nat) | Stopped

  datatype Dispatcher =
    | Spawning
    | Sending(next: nat)
    | Closed                // the channel is closed; waiting for the group
    | Done

  datatype Slot<R> = Slot(index: nat, result: R)

  datatype Pool<R> = Pool(dispatcher: Dispatcher, workers: seq<Worker>, output: seq<Option<R>>, writes: seq<Slot<R>>)

  datatype Step<R> =
    | Spawn
    | StartSending
    | Send(worker: nat)              // a rendezvous: the worker receives the next index
    | Write(worker: nat, result: R)  // the worker stores its result and asks for more
    | Close
    | Stop(worker: nat)              // the worker sees the closed channel
    | Return

  function Initial<I, R(!new)>(job: Job<I, R>): Pool<R> {
    Pool(Spawning, [], seq(|job.input|, _ => None), [])
  }

  ghost predicate Enabled<I, R(!new)>(job: Job<I, R>, s: Pool<R>, step: Step<R>) {
    match step
    case Spawn => s.dispatcher.Spawning? && |s.workers| < job.WorkerCount()
    case StartSending => s.dispatcher.Spawning? && |s.workers| >= job.WorkerCount()
    case Send(w) =>
      && s.dispatcher.Sending? && s.dispatcher.next < |job.input|
      && w < |s.workers| && s.workers[w].Waiting?
    case Write(w, r) =>
      && w < |s.workers| && s.workers[w].Working?
      && s.workers[w].index < |job.input| == |s.output| && job.answers(job.input[s.workers[w].index], r)
    case Close => s.dispatcher.Sending? && s.dispatcher.next >= |job.input|
    case Stop(w) => (s.dispatcher.Closed? || s.dispatcher.Done?) && w < |s.workers| && s.workers[w].Waiting?
    case Return => s.dispatcher.Closed? && forall w :: 0 <= w < |s.workers| ==> s.workers[w].Stopped?
  }

  ghost function Apply<I, R(!new)>(job: Job<I, R>, s: Pool<R>, step: Step<R>): Pool<R>
    requires Enabled(job, s, step)
  {
    match step
    case Spawn => s.(workers := s.workers + [Waiting])
    case StartSending => s.(dispatcher := Sending(0))
    case Send(w) =>
      s.(dispatcher := Sending(s.dispatcher.next + 1), workers := s.workers[w := Working(s.dispatcher.next)])
    case Write(w, r) =>
      s.(workers := s.workers[w := Waiting],
         output := s.output[s.workers[w].index := Some(r)],
         writes := s.writes + [Slot(s.workers[w].index, r)])
    case Close => s.(dispatcher := Closed)
    case Stop(w) => s.(workers := s.workers[w := Stopped])
    case Return => s.(dispatcher := Done)
  }

  ghost predicate Leads<I, R(!new)>(job: Job<I, R>, s: Pool<R>, steps: seq<Step<R>>, t: Pool<R>)
    decreases |steps|
  {
    if steps == [] then s == t
    else Enabled(job, s, steps[0]) && Leads(job, Apply(job, s, steps[0]), steps[1..], t)
  }

  // ----- what every interleaving keeps

  /** How many indices have gone through the channel. */
  function Sent<I, R(!new)>(job: Job<I, R>, s: Pool<R>): nat {
    match s.dispatcher
    case Spawning => 0
    case Sending(next) => next
    case _ => |job.input|
  }

  ghost predicate Held<R>(s: Pool<R>, i: nat) {
    exists w :: 0 <= w < |s.workers| && s.workers[w] == Working(i)
  }

  ghost predicate Wrote<R>(writes: seq<Slot<R>>, i: nat) {
    exists k :: 0 <= k < |writes| && writes[k].index == i
  }

  ghost predicate Written<R>(s: Pool<R>, i: nat) {
    Wrote(s.writes, i)
  }

  ghost predicate Inv<I, R(!new)>(job: Job<I, R>, s: Pool<R>) {
    && |s.output| == |job.input|
    && Sent(job, s) <= |job.input|
    && (if s.dispatcher.Spawning? then |s.workers| <= job.WorkerCount() else |s.workers| == job.WorkerCount())
    && (s.dispatcher.Spawning? || s.dispatcher.Sending? ==> forall w :: 0 <= w < |s.workers| ==> !s.workers[w].Stopped?)
    && (s.dispatcher.Done? ==> forall w :: 0 <= w < |s.workers| ==> s.workers[w].Stopped?)
    && SlotsOk(job, s)
    && WritesOk(job, s)
  }

  /** Every index sent is either in one worker's hands or written, never both; no two workers hold
      the same slot; an index not yet sent is neither held nor written. */
  ghost predicate SlotsOk<I, R(!new)>(job: Job<I, R>, s: Pool<R>) {
    && (forall i :: 0 <= i < |job.input| ==>
          if Held(s, i) then i < Sent(job, s) && !Written(s, i) else (i < Sent(job, s) <==> Written(s, i)))
    && (forall v, w :: 0 <= v < w < |s.workers| && s.workers[v].Working? ==> s.workers[v] != s.workers[w])
    && (forall w :: 0 <= w < |s.workers| && s.workers[w].Working? ==> s.workers[w].index < |job.input|)
  }

  /** Every slot is written at most once, with a result of its own input, and keeps it. */
  ghost predicate WritesOk<I, R(!new)>(job: Job<I, R>, s: Pool<R>) {
    && (forall k :: 0 <= k < |s.writes| ==>
          && s.writes[k].index < |job.input| == |s.output|
          && s.output[s.writes[k].index] == Some(s.writes[k].result)
          && job.answers(job.input[s.writes[k].index], s.writes[k].result))
    && (forall j, k :: 0 <= j < k < |s.writes| ==> s.writes[j].index != s.writes[k].index)
  }

  lemma SendKeepsSlots<I, R(!new)>(job: Job<I, R>, s: Pool<R>, w: nat)
    requires Inv(job, s) && Enabled(job, s, Send(w))
    ensures SlotsOk(job, Apply(job, s, Send(w)))
  {
    var t, next := Apply(job, s, Send(w)), s.dispatcher.next;
    forall i | 0 <= i < |job.input|
      ensures Held(t, i) <==> Held(s, i) || i == next
    {
      if i == next {
        assert t.workers[w] == Working(i);
      } else if Held(s, i) {
        var v :| 0 <= v < |s.workers| && s.workers[v] == Working(i);
        assert t.workers[v] == Working(i);
      }
    }
    assert forall i: nat :: Written(t, i) <==> Written(s, i);
    assert !Held(s, next);
  }

  lemma WriteKeepsSlots<I, R(!new)>(job: Job<I, R>, s: Pool<R>, w: nat, r: R)
    requires Inv(job, s) && Enabled(job, s, Write(w, r))
    ensures SlotsOk(job, Apply(job, s, Write(w, r))) && WritesOk(job, Apply(job, s, Write(w, r)))
  {
    var t, at := Apply(job, s, Write(w, r)), s.workers[w].index;
    assert Held(s, at);
    forall i | 0 <= i < |job.input|
      ensures Held(t, i) <==> Held(s, i) && i != at
      ensures Written(t, i) <==> Written(s, i) || i == at
    {
      if Held(s, i) && i != at {
        var v :| 0 <= v < |s.workers| && s.workers[v] == Working(i);
        assert t.workers[v] == Working(i);
      }
      if i == at {
        assert t.writes[|s.writes|].index == i;
      } else if Written(s, i) {
        var k :| 0 <= k < |s.writes| && s.writes[k].index == i;
        assert t.writes[k].index == i;
      }
    }
    forall k | 0 <= k < |s.writes| ensures s.writes[k].index != at {
      assert Written(s, s.writes[k].index);
    }
  }

  lemma OtherKeepsSlots<I, R(!new)>(job: Job<I, R>, s: Pool<R>, step: Step<R>)
    requires Inv(job, s) && Enabled(job, s, step) && !step.Send? && !step.Write?
    ensures SlotsOk(job, Apply(job, s, step)) && WritesOk(job, Apply(job, s, step))
  {
    var t := Apply(job, s, step);
    assert t.writes == s.writes && t.output == s.output && Sent(job, t) == Sent(job, s);
    forall i | 0 <= i < |job.input| ensures Held(t, i) <==> Held(s, i) {
      if Held(s, i) {
        var v :| 0 <= v < |s.workers| && s.workers[v] == Working(i);
        assert t.workers[v] == Working(i);
      }
    }
    assert forall i: nat :: Written(t, i) <==> Written(s, i);
  }

  lemma StepKeepsInv<I, R(!new)>(job: Job<I, R>, s: Pool<R>, step: Step<R>)
    requires Inv(job, s) && Enabled(job, s, step)
    ensures Inv(job, Apply(job, s, step))
  {
    match step
    case Send(w) => SendKeepsSlots(job, s, w);
    case Write(w, r) => WriteKeepsSlots(job, s, w, r);
    case _ => OtherKeepsSlots(job, s, step);
  }

  lemma {:induction false} RunKeepsInv<I, R(!new)>(job: Job<I, R>, s: Pool<R>, steps: seq<Step<R>>, t: Pool<R>)
    requires Inv(job, s) && Leads(job, s, steps, t)
    ensures Inv(job, t)
    decreases |steps|
  {
    if steps != [] {
      StepKeepsInv(job, s, steps[0]);
      RunKeepsInv(job, Apply(job, s, steps[0]), steps[1..], t);
    }
  }

  lemma InitialInv<I, R(!new)>(job: Job<I, R>)
    ensures Inv(job, Initial(job))
  {}

  // ----- results

  function Results<R>(writes: seq<Slot<R>>): seq<R> {
    seq(|writes|, k requires 0 <= k < |writes| => writes[k].result)
  }

  function Values<R>(output: seq<Option<R>>): seq<R>
    requires forall i :: 0 <= i < |output| ==> output[i].Some?
  {
    seq(|output|, i requires 0 <= i < |output| => output[i].value)
  }

  /** When the pool returns, every slot holds a result of its own input, written exactly once, and
      the results produced are the results returned, counting repetitions. */
  lemma ReturnsAnswers<I, R(!new)>(job: Job<I, R>, steps: seq<Step<R>>, s: Pool<R>)
    requires Leads(job, Initial(job), steps, s) && s.dispatcher.Done?
    ensures |s.output| == |job.input| == |s.writes|
    ensures forall i :: 0 <= i < |job.input| ==> s.output[i].Some? && job.answers(job.input[i], s.output[i].value)
    ensures forall j, k :: 0 <= j < k < |s.writes| ==> s.writes[j].index != s.writes[k].index
    ensures forall k :: 0 <= k < |s.writes| ==>
              s.writes[k].index < |s.output| && s.output[s.writes[k].index] == Some(s.writes[k].result)
    ensures forall i :: 0 <= i < |job.input| ==> Wrote(s.writes, i)
    ensures multiset(Results(s.writes)) == multiset(Values(s.output))
  {
    InitialInv(job);
    RunKeepsInv(job, Initial(job), steps, s);
    forall i | 0 <= i < |job.input|
      ensures s.output[i].Some? && job.answers(job.input[i], s.output[i].value) && Wrote(s.writes, i)
    {
      assert !Held(s, i) && Written(s, i);
      var k :| 0 <= k < |s.writes| && s.writes[k].index == i;
    }
    WritesFillSlots(s.writes, Values(s.output));
  }

  /** The writes name every slot below n once, each with that slot's result. */
  ghost predicate Fills<R>(writes: seq<Slot<R>>, output: seq<R>) {
    && (forall k :: 0 <= k < |writes| ==>
          writes[k].index < |output| && writes[k].result == output[writes[k].index])
    && (forall j, k :: 0 <= j < k < |writes| ==> writes[j].index != writes[k].index)
    && (forall i :: 0 <= i < |output| ==> Wrote(writes, i))
  }

  lemma FillsWithoutLast<R>(writes: seq<Slot<R>>, output: seq<R>, k: nat)
    requires output != [] && Fills(writes, output) && k < |writes| && writes[k].index == |output| - 1
    ensures Fills(writes[..k] + writes[k + 1..], output[..|output| - 1])
  {
    var n, rest := |output| - 1, writes[..k] + writes[k + 1..];
    forall m | 0 <= m < |rest| ensures rest[m] == writes[if m < k then m else m + 1] && rest[m].index < n {}
    forall i | 0 <= i < n ensures Wrote(rest, i) {
      assert Wrote(writes, i);
      var m :| 0 <= m < |writes| && writes[m].index == i;
      assert rest[if m < k then m else m - 1] == writes[m];
    }
  }

  lemma LastSlot<R>(writes: seq<Slot<R>>, output: seq<R>) returns (k: nat)
    requires output != [] && Fills(writes, output)
    ensures k < |writes| && writes[k] == Slot(|output| - 1, output[|output| - 1])
  {
    assert Wrote(writes, |output| - 1);
    k :| k < |writes| && writes[k].index == |output| - 1;
  }

  lemma {:induction false} WritesFillSlots<R>(writes: seq<Slot<R>>, output: seq<R>)
    requires Fills(writes, output)
    ensures |writes| == |output| && multiset(Results(writes)) == multiset(output)
    decreases |output|
  {
    assert writes != [] ==> writes[0].index < |output|;
    if output != [] {
      hide Results, Fills;
      var k := LastSlot(writes, output);
      var rest, shorter := writes[..k] + writes[k + 1..], output[..|output| - 1];
      FillsWithoutLast(writes, output, k);
      WritesFillSlots(rest, shorter);
      ResultsWithout(writes, k);
      assert output == shorter + [writes[k].result];
    }
  }

  lemma ResultsWithout<R>(writes: seq<Slot<R>>, k: nat)
    requires k < |writes|
    ensures multiset(Results(writes)) == multiset(Results(writes[..k] + writes[k + 1..])) + multiset{writes[k].result}
  {
    TakeOut(Results(writes), k);
    assert Results(writes[..k] + writes[k + 1..]) == Results(writes)[..k] + Results(writes)[k + 1..];
  }

  lemma TakeOut<T>(s: seq<T>, k: nat)
    requires k < |s|
    ensures multiset(s) == multiset(s[..k] + s[k + 1..]) + multiset{s[k]}
  {
    assert s == s[..k] + [s[k]] + s[k + 1..];
  }

  /** Against a store that does not change, where processing is a function, the pool is the
      sequential map, whatever the interleaving. */
  lemma RefinesMap<I, R(!new)>(job: Job<I, R>, process: I -> R, steps: seq<Step<R>>, s: Pool<R>)
    requires forall i, r :: job.answers(i, r) <==> r == process(i)
    requires Leads(job, Initial(job), steps, s) && s.dispatcher.Done?
    ensures s.output == seq(|job.input|, i requires 0 <= i < |job.input| => Some(process(job.input[i])))
  {
    ReturnsAnswers(job, steps, s);
  }

  /** The workers that are processing an object. */
  ghost function Busy(workers: seq<Worker>): set<nat> {
    set w: nat | w < |workers| && workers[w].Working?
  }

  lemma {:induction false} BusyBound(workers: seq<Worker>)
    ensures |Busy(workers)| <= |workers|
  {
    if workers != [] {
      var n := |workers| - 1;
      BusyBound(workers[..n]);
      assert Busy(workers) <= Busy(workers[..n]) + {n};
      SubsetSize(Busy(workers), Busy(workers[..n]) + {n});
    }
  }

  /** At no moment are more than min(concurrency, max(1, n)) objects being processed, and no two
      workers process the same one. */
  lemma BoundedConcurrency<I, R(!new)>(job: Job<I, R>, steps: seq<Step<R>>, s: Pool<R>)
    requires Leads(job, Initial(job), steps, s) && job.concurrency > 0
    ensures |Busy(s.workers)| <= job.concurrency && (|Busy(s.workers)| <= |job.input| || |Busy(s.workers)| <= 1)
    ensures forall v, w :: 0 <= v < w < |s.workers| && s.workers[v].Working? ==> s.workers[v] != s.workers[w]
  {
    InitialInv(job);
    RunKeepsInv(job, Initial(job), steps, s);
    BusyBound(s.workers);
  }

  lemma FirstStep<I, R(!new)>(job: Job<I, R>, s: Pool<R>, step: Step<R>, rest: seq<Step<R>>, t: Pool<R>)
    requires Enabled(job, s, step) && Leads(job, Apply(job, s, step), rest, t)
    ensures Leads(job, s, [step] + rest, t)
  {
    assert ([step] + rest)[0] == step && ([step] + rest)[1..] == rest;
  }

  function Spawned<I, R(!new)>(job: Job<I, R>, k: nat): Pool<R> {
    Initial(job).(workers := seq(k, _ => Waiting))
  }

  function Distributed<I, R(!new)>(job: Job<I, R>, k: nat): Pool<R> {
    Initial(job).(dispatcher := Sending(k),
                  workers := seq(job.WorkerCount(), (w: nat) => if w < k then Working(w) else Waiting))
  }

  lemma {:induction false} SpawnThen<I, R(!new)>(job: Job<I, R>, k: nat, rest: seq<Step<R>>, t: Pool<R>)
      returns (steps: seq<Step<R>>)
    requires k <= job.WorkerCount() && Leads(job, Spawned(job, job.WorkerCount()), rest, t)
    ensures Leads(job, Spawned(job, k), steps, t)
    decreases job.WorkerCount() - k
  {
    if k == job.WorkerCount() {
      steps := rest;
    } else {
      var later := SpawnThen(job, k + 1, rest, t);
      assert Apply(job, Spawned(job, k), Spawn).workers == Spawned(job, k + 1).workers;
      FirstStep(job, Spawned(job, k), Spawn, later, t);
      steps := [Spawn] + later;
    }
  }

  lemma {:induction false} DistributeFrom<I, R(!new)>(job: Job<I, R>, k: nat) returns (steps: seq<Step<R>>)
    requires k <= job.WorkerCount() <= |job.input|
    ensures Leads(job, Distributed(job, k), steps, Distributed(job, job.WorkerCount()))
    decreases job.WorkerCount() - k
  {
    if k == job.WorkerCount() {
      steps := [];
    } else {
      var later := DistributeFrom(job, k + 1);
      assert Apply(job, Distributed(job, k), Send(k)).workers == Distributed(job, k + 1).workers;
      FirstStep(job, Distributed(job, k), Send(k), later, Distributed(job, job.WorkerCount()));
      steps := [Send(k)] + later;
    }
  }

  lemma {:induction false} AllBusy(workers: seq<Worker>)
    requires forall w :: 0 <= w < |workers| ==> workers[w].Working?
    ensures |Busy(workers)| == |workers|
  {
    if workers != [] {
      var n := |workers| - 1;
      AllBusy(workers[..n]);
      assert Busy(workers) == Busy(workers[..n]) + {n};
    }
  }

  /** And that many are processed at once in some interleaving. */
  lemma FullConcurrency<I, R(!new)>(job: Job<I, R>) returns (steps: seq<Step<R>>, s: Pool<R>)
    requires job.concurrency > 0 && job.input != []
    ensures Leads(job, Initial(job), steps, s)
    ensures |Busy(s.workers)| == if job.concurrency < |job.input| then job.concurrency else |job.input|
  {
    s := Distributed(job, job.WorkerCount());
    var later := DistributeFrom(job, 0);
    assert Apply(job, Spawned(job, job.WorkerCount()), StartSending).workers == Distributed(job, 0).workers;
    FirstStep(job, Spawned(job, job.WorkerCount()), StartSending, later, s);
    steps := SpawnThen(job, 0, [StartSending] + later, s);
    assert Spawned(job, 0).workers == [];
    AllBusy(s.workers);
  }

  // ----- progress and termination

  /** No reachable unfinished state is stuck. */
  lemma Progress<I, R(!new)>(job: Job<I, R>, s: Pool<R>) returns (step: Step<R>)
    requires Inv(job, s) && !s.dispatcher.Done?
    requires job.Terminates() && (job.concurrency > 0 || job.input == [])
    ensures Enabled(job, s, step)
  {
    if w :| 0 <= w < |s.workers| && s.workers[w].Working? {
      assert job.Ends(job.input[s.workers[w].index]);
      var r :| job.answers(job.input[s.workers[w].index], r);
      step := Write(w, r);
    } else {
      match s.dispatcher
      case Spawning => step := if |s.workers| < job.WorkerCount() then Spawn else StartSending;
      case Sending(next) =>
        if next < |job.input| {
          assert s.workers[0].Waiting?;
          step := Send(0);
        } else {
          step := Close;
        }
      case Closed =>
        if w :| 0 <= w < |s.workers| && s.workers[w].Waiting? {
          step := Stop(w);
        } else {
          step := Return;
        }
    }
  }

  function StepsLeft(w: Worker): nat {
    match w case Waiting => 1 case Working(_) => 2 case Stopped => 0
  }

  function Weight(workers: seq<Worker>): nat {
    if workers == [] then 0 else StepsLeft(workers[|workers| - 1]) + Weight(workers[..|workers| - 1])
  }

  lemma {:induction false} WeightUpdate(workers: seq<Worker>, w: nat, v: Worker)
    requires w < |workers|
    ensures Weight(workers[w := v]) == Weight(workers) - StepsLeft(workers[w]) + StepsLeft(v)
  {
    var n := |workers| - 1;
    if w < n {
      assert workers[w := v][..n] == workers[..n][w := v];
      WeightUpdate(workers[..n], w, v);
    } else {
      assert workers[w := v][..n] == workers[..n];
    }
  }

  lemma WeightAppend(workers: seq<Worker>, v: Worker)
    ensures Weight(workers + [v]) == Weight(workers) + StepsLeft(v)
  {
    assert (workers + [v])[..|workers|] == workers;
  }

  /** How many steps are left. */
  function Remaining<I, R(!new)>(job: Job<I, R>, s: Pool<R>): int {
    (match s.dispatcher case Spawning => 3 case Sending(_) => 2 case Closed => 1 case Done => 0)
    + 2 * (job.WorkerCount() - |s.workers|) + Weight(s.workers) + 2 * (|job.input| - Sent(job, s))
  }

  lemma RemainingIsNat<I, R(!new)>(job: Job<I, R>, s: Pool<R>)
    requires Inv(job, s)
    ensures Remaining(job, s) >= 0
  {}

  /** Every step, whichever it is, brings the end exactly one step nearer. */
  lemma StepCounts<I, R(!new)>(job: Job<I, R>, s: Pool<R>, step: Step<R>)
    requires Inv(job, s) && Enabled(job, s, step)
    ensures Remaining(job, Apply(job, s, step)) == Remaining(job, s) - 1
  {
    match step
    case Spawn => WeightAppend(s.workers, Waiting);
    case Send(w) => WeightUpdate(s.workers, w, Working(s.dispatcher.next));
    case Write(w, _) => WeightUpdate(s.workers, w, Waiting);
    case Stop(w) => WeightUpdate(s.workers, w, Stopped);
    case _ =>
  }

  lemma {:induction false} RunCounts<I, R(!new)>(job: Job<I, R>, s: Pool<R>, steps: seq<Step<R>>, t: Pool<R>)
    requires Inv(job, s) && Leads(job, s, steps, t)
    ensures Remaining(job, t) == Remaining(job, s) - |steps|
    decreases |steps|
  {
    if steps != [] {
      StepCounts(job, s, steps[0]);
      StepKeepsInv(job, s, steps[0]);
      RunCounts(job, Apply(job, s, steps[0]), steps[1..], t);
    }
  }

  lemma {:induction false} AllStoppedWeighNothing(workers: seq<Worker>)
    requires forall w :: 0 <= w < |workers| ==> workers[w].Stopped?
    ensures Weight(workers) == 0
  {
    if workers != [] {
      AllStoppedWeighNothing(workers[..|workers| - 1]);
    }
  }

  /** Every interleaving ends, and all take the same number of steps: a run has returned exactly when
      it has made 2n + 2w + 3 of them, and no run makes more. */
  lemma EveryRunEnds<I, R(!new)>(job: Job<I, R>, steps: seq<Step<R>>, s: Pool<R>)
    requires Leads(job, Initial(job), steps, s)
    ensures var n := |job.input|;
            var w := if job.concurrency <= 0 then 0 else if n <= 1 then 1 else if n < job.concurrency then n
                     else job.concurrency;
            |steps| <= 2 * n + 2 * w + 3 && (s.dispatcher.Done? <==> |steps| == 2 * n + 2 * w + 3)
  {
    InitialInv(job);
    RunKeepsInv(job, Initial(job), steps, s);
    RunCounts(job, Initial(job), steps, s);
    RemainingIsNat(job, s);
    if s.dispatcher.Done? {
      AllStoppedWeighNothing(s.workers);
    }
  }

  /** Without New's default the pool can hang: with no workers and something to send, the dispatcher
      waits for ever on its first send. */
  lemma NoWorkersNoProgress<I, R(!new)>(job: Job<I, R>) returns (stuck: Pool<R>)
    requires job.concurrency <= 0 && job.input != []
    ensures Leads(job, Initial(job), [StartSending], stuck) && !stuck.dispatcher.Done?
    ensures forall step :: !Enabled(job, stuck, step)
  {
    stuck := Initial(job).(dispatcher := Sending(0));
    var steps: seq<Step<R>> := [StartSending];
    assert steps[1..] == [];
  }

  // ----- the pool as it runs, filling an array

  /** processObjects. At every moment any part that can move may move next. */
  method ProcessObjects<I, R(!new)>(concurrency: int, input: seq<I>, process: I -> R, output: array<R>)
    requires concurrency > 0 && output.Length == |input|
    modifies output
    ensures forall i :: 0 <= i < |input| ==> output[i] == process(input[i])
  {
    ghost var job := Job(concurrency, input, (i: I, r: R) => r == process(i));
    ghost var s := Initial(job);
    var workerCount := Min(concurrency, Max(1, |input|));
    var dispatcher: Dispatcher := Spawning;
    var workers: seq<Worker> := [];
    InitialInv(job);
    while dispatcher != Done
      invariant Inv(job, s) && s.dispatcher == dispatcher && s.workers == workers
      invariant forall i :: 0 <= i < |input| && s.output[i].Some? ==> output[i] == s.output[i].value
      decreases Remaining(job, s)
    {
      ghost var step: Step<R>;
      if {
        case dispatcher.Spawning? && |workers| < workerCount =>
          step := Spawn;
          workers := workers + [Waiting];
        case dispatcher.Spawning? && |workers| == workerCount =>
          step := StartSending;
          dispatcher := Sending(0);
        case dispatcher.Sending? && dispatcher.next < |input|
             && exists w :: 0 <= w < |workers| && workers[w].Waiting? =>
          var w :| 0 <= w < |workers| && workers[w].Waiting?;
          step := Send(w);
          workers := workers[w := Working(dispatcher.next)];
          dispatcher := Sending(dispatcher.next + 1);
        case exists w :: 0 <= w < |workers| && workers[w].Working? =>
          var w :| 0 <= w < |workers| && workers[w].Working?;
          var index := workers[w].index;
          output[index] := process(input[index]);
          step := Write(w, process(input[index]));
          workers := workers[w := Waiting];
        case dispatcher.Sending? && dispatcher.next == |input| =>
          step := Close;
          dispatcher := Closed;
        case dispatcher.Closed? && exists w :: 0 <= w < |workers| && workers[w].Waiting? =>
          var w :| 0 <= w < |workers| && workers[w].Waiting?;
          step := Stop(w);
          workers := workers[w := Stopped];
        case dispatcher.Closed? && forall w :: 0 <= w < |workers| ==> workers[w].Stopped? =>
          step := Return;
          dispatcher := Done;
      }
      StepCounts(job, s, step);
      RemainingIsNat(job, s);
      StepKeepsInv(job, s, step);
      s := Apply(job, s, step);
    }
    forall i | 0 <= i < |input| ensures output[i] == process(input[i]) {
      assert !Held(s, i) && Written(s, i);
      var k :| 0 <= k < |s.writes| && s.writes[k].index == i;
    }
  }
}
