/** The thread pool as an interleaving of atomic steps, and what every run keeps.
    Accepted tasks are named by their position in the order of acceptance. */
module PoolRuns {
  datatype Worker = Idle | Running(task: nat) | Exited

  datatype State<T> = State(
    stop: bool,
    workers: seq<Worker>,  // one per thread ever started
    joined: nat,           // how many of them Stop has joined
    cleared: bool,         // threads_ emptied at the end of Stop
    pending: seq<T>,       // tasks of AddTask calls between the emptiness test and the lock
    queue: seq<T>,
    accepted: seq<T>,      // every task ever enqueued
    taken: nat,            // how many of those have been dequeued
    done: seq<nat>)        // the completed ones, in order of completion

  datatype Step<T> =
    | Spawn                 // one round of Start
    | AddTest(task: T)      // AddTask up to the lock
    | Enqueue(i: nat)       // AddTask under the lock
    | Take(w: nat)          // Run under the lock: dequeue
    | Exit(w: nat)          // Run under the lock: leave the loop
    | Finish(w: nat)        // func() returns
    | SetStop
    | Join
    | Clear

  function Initial<T>(): State<T> {
    State(false, [], 0, false, [], [], [], 0, [])
  }

  /** threads_.empty() */
  predicate NoThreads<T>(s: State<T>) {
    s.workers == [] || s.cleared
  }

  predicate Enabled<T>(s: State<T>, a: Step<T>) {
    match a
    case Spawn => !s.stop
    case AddTest(_) => !NoThreads(s)
    case Enqueue(i) => i < |s.pending|
    case Take(w) => w < |s.workers| && s.workers[w] == Idle && s.queue != []
    case Exit(w) => w < |s.workers| && s.workers[w] == Idle && s.stop && s.queue == []
    case Finish(w) => w < |s.workers| && s.workers[w].Running?
    case SetStop => !s.stop
    case Join => s.stop && s.joined < |s.workers| && s.workers[s.joined] == Exited
    case Clear => s.stop && s.joined == |s.workers| && !s.cleared
  }

  function Apply<T>(s: State<T>, a: Step<T>): State<T>
    requires Enabled(s, a)
  {
    match a
    case Spawn => s.(workers := s.workers + [Idle])
    case AddTest(t) => s.(pending := s.pending + [t])
    case Enqueue(i) =>
      s.(pending := s.pending[..i] + s.pending[i + 1..], queue := s.queue + [s.pending[i]],
          accepted := s.accepted + [s.pending[i]])
    case Take(w) => s.(workers := s.workers[w := Running(s.taken)], queue := s.queue[1..], taken := s.taken + 1)
    case Exit(w) => s.(workers := s.workers[w := Exited])
    case Finish(w) => s.(workers := s.workers[w := Idle], done := s.done + [s.workers[w].task])
    case SetStop => s.(stop := true)
    case Join => s.(joined := s.joined + 1)
    case Clear => s.(cleared := true)
  }

  predicate Legal<T>(run: seq<Step<T>>)
    decreases |run|, 0
  {
    run == [] || (Legal(run[..|run| - 1]) && Enabled(Run(run[..|run| - 1]), run[|run| - 1]))
  }

  function Run<T>(run: seq<Step<T>>): State<T>
    requires Legal(run)
    decreases |run|, 1
  {
    if run == [] then Initial() else Apply(Run(run[..|run| - 1]), run[|run| - 1])
  }

  // What the workers hold

  predicate IsRunning(w: Worker, i: nat) {
    w == Running(i)
  }

  function Holders(ws: seq<Worker>, i: nat): nat {
    if ws == [] then 0 else Holders(ws[..|ws| - 1], i) + if IsRunning(ws[|ws| - 1], i) then 1 else 0
  }

  function Times(s: seq<nat>, i: nat): nat {
    if s == [] then 0 else Times(s[..|s| - 1], i) + if s[|s| - 1] == i then 1 else 0
  }

  /** Task i is among the first n and counted once, or it is not and not counted. */
  predicate OnceBelow(n: nat, i: nat, count: nat) {
    count == if i < n then 1 else 0
  }

  lemma {:induction false} HoldersUpdate(ws: seq<Worker>, w: nat, x: Worker, i: nat)
    requires w < |ws|
    ensures Holders(ws[w := x], i) + (if IsRunning(ws[w], i) then 1 else 0)
         == Holders(ws, i) + if IsRunning(x, i) then 1 else 0
  {
    var n := |ws| - 1;
    if w < n {
      HoldersUpdate(ws[..n], w, x, i);
      assert ws[w := x][..n] == ws[..n][w := x];
    } else {
      assert ws[w := x][..n] == ws[..n];
    }
  }

  lemma {:induction false} NoHolders(ws: seq<Worker>, i: nat)
    requires forall w :: 0 <= w < |ws| ==> !ws[w].Running?
    ensures Holders(ws, i) == 0
  {
    if ws != [] {
      NoHolders(ws[..|ws| - 1], i);
    }
  }

  /** Every dequeued task is completed or being run, once in all. */
  ghost predicate Conserved(ws: seq<Worker>, done: seq<nat>, taken: nat) {
    forall i: nat :: OnceBelow(taken, i, Times(done, i) + Holders(ws, i))
  }

  /** What holds after every step of every run. */
  ghost predicate Inv<T>(s: State<T>) {
    && s.taken <= |s.accepted| && s.queue == s.accepted[s.taken..]
    && Conserved(s.workers, s.done, s.taken)
    && (!s.stop ==> forall w :: 0 <= w < |s.workers| ==> s.workers[w] != Exited)
    && s.joined <= |s.workers| && (forall w :: 0 <= w < s.joined ==> s.workers[w] == Exited)
    && (s.cleared ==> s.stop && s.joined == |s.workers|)
  }

  /** How one step changes the count of task i. */
  lemma {:induction false} StepCounts<T>(s: State<T>, a: Step<T>, i: nat)
    requires Enabled(s, a)
    ensures var s' := Apply(s, a);
      && s'.taken == s.taken + (if a.Take? then 1 else 0)
      && Times(s'.done, i) + Holders(s'.workers, i)
           == Times(s.done, i) + Holders(s.workers, i) + if a.Take? && i == s.taken then 1 else 0
  {
    var s' := Apply(s, a);
    if a.Take? || a.Exit? || a.Finish? {
      HoldersUpdate(s.workers, a.w, s'.workers[a.w], i);
    }
    if a.Finish? {
      assert s'.done[..|s.done|] == s.done;
    }
    if a.Spawn? {
      assert s'.workers[..|s.workers|] == s.workers;
    }
  }

  lemma {:induction false} StepConserves<T>(s: State<T>, a: Step<T>)
    requires Conserved(s.workers, s.done, s.taken) && Enabled(s, a)
    ensures Conserved(Apply(s, a).workers, Apply(s, a).done, Apply(s, a).taken)
  {
    var s' := Apply(s, a);
    forall i: nat ensures OnceBelow(s'.taken, i, Times(s'.done, i) + Holders(s'.workers, i)) {
      assert OnceBelow(s.taken, i, Times(s.done, i) + Holders(s.workers, i));
      StepCounts(s, a, i);
    }
  }

  lemma {:induction false} StepKeepsInv<T>(s: State<T>, a: Step<T>)
    requires Inv(s) && Enabled(s, a)
    ensures Inv(Apply(s, a))
  {
    hide Conserved;
    StepConserves(s, a);
  }

  lemma {:induction false} RunKeepsInv<T>(run: seq<Step<T>>)
    requires Legal(run)
    ensures Inv(Run(run))
  {
    if run != [] {
      hide Inv;
      hide Apply;
      RunKeepsInv(run[..|run| - 1]);
      StepKeepsInv(Run(run[..|run| - 1]), run[|run| - 1]);
    } else {
      assert Conserved([], [], 0);
    }
  }

  lemma {:induction false} SomeHolder(ws: seq<Worker>, i: nat)
    ensures Holders(ws, i) > 0 <==> exists w :: 0 <= w < |ws| && IsRunning(ws[w], i)
  {
    if ws != [] {
      var n := |ws| - 1;
      SomeHolder(ws[..n], i);
      if Holders(ws[..n], i) > 0 {
        var w :| 0 <= w < n && IsRunning(ws[..n][w], i);
        assert IsRunning(ws[w], i);
      } else if Holders(ws, i) > 0 {
        assert IsRunning(ws[n], i);
      }
      if w :| 0 <= w < |ws| && IsRunning(ws[w], i) {
        if w < n { assert IsRunning(ws[..n][w], i); }
      }
    }
  }

  lemma {:induction false} TwoHolders(ws: seq<Worker>, i: nat, w: nat, v: nat)
    requires w < v < |ws| && IsRunning(ws[w], i) && IsRunning(ws[v], i)
    ensures Holders(ws, i) >= 2
  {
    var n := |ws| - 1;
    if v < n {
      TwoHolders(ws[..n], i, w, v);
    } else {
      assert IsRunning(ws[..n][w], i);
      SomeHolder(ws[..n], i);
    }
  }

  lemma {:induction false} TimesIn(s: seq<nat>, i: nat)
    ensures Times(s, i) > 0 <==> i in s
  {
    if s != [] {
      TimesIn(s[..|s| - 1], i);
      assert s == s[..|s| - 1] + [s[|s| - 1]];
    }
  }

  /** The dequeued tasks are a prefix of the accepted ones; each of them is either completed exactly once or
      being run by exactly one worker; nothing else was ever run. */
  lemma {:induction false} DequeuedInOrderOnce<T>(run: seq<Step<T>>, i: nat)
    requires Legal(run)
    ensures Run(run).taken <= |Run(run).accepted|
    ensures Run(run).accepted == Run(run).accepted[..Run(run).taken] + Run(run).queue
    ensures i in Run(run).done || (exists w :: 0 <= w < |Run(run).workers| && IsRunning(Run(run).workers[w], i)) <==>
        i < Run(run).taken
    ensures i in Run(run).done ==>
        Times(Run(run).done, i) == 1 && forall w :: 0 <= w < |Run(run).workers| ==> !IsRunning(Run(run).workers[w], i)
    ensures forall w, v :: 0 <= w < v < |Run(run).workers| && IsRunning(Run(run).workers[w], i) ==>
              !IsRunning(Run(run).workers[v], i)
  {
    RunKeepsInv(run);
    var s := Run(run);
    assert OnceBelow(s.taken, i, Times(s.done, i) + Holders(s.workers, i));
    TimesIn(s.done, i);
    SomeHolder(s.workers, i);
    forall w, v | 0 <= w < v < |s.workers| && IsRunning(s.workers[w], i) ensures !IsRunning(s.workers[v], i) {
      if IsRunning(s.workers[v], i) { TwoHolders(s.workers, i, w, v); }
    }
  }

  // The order of the tasks

  lemma {:induction false} LegalPrefix<T>(run: seq<Step<T>>, k: nat)
    requires Legal(run) && k <= |run|
    ensures Legal(run[..k])
    ensures k < |run| ==> Enabled(Run(run[..k]), run[k])
    decreases |run|
  {
    if k == |run| {
      assert run[..k] == run;
    } else {
      var before := run[..|run| - 1];
      LegalPrefix(before, k);
      assert before[..k] == run[..k];
    }
  }

  function Enqueues<T>(run: seq<Step<T>>): nat {
    if run == [] then 0 else Enqueues(run[..|run| - 1]) + if run[|run| - 1].Enqueue? then 1 else 0
  }

  function Takes<T>(run: seq<Step<T>>): nat {
    if run == [] then 0 else Takes(run[..|run| - 1]) + if run[|run| - 1].Take? then 1 else 0
  }

  /** The tasks of all AddTask calls that were let through. */
  function Tested<T>(run: seq<Step<T>>): seq<T> {
    if run == [] then []
    else Tested(run[..|run| - 1]) + if run[|run| - 1].AddTest? then [run[|run| - 1].task] else []
  }

  lemma {:induction false} Counts<T>(run: seq<Step<T>>)
    requires Legal(run)
    ensures |Run(run).accepted| == Enqueues(run) && Run(run).taken == Takes(run)
  {
    if run != [] {
      Counts(run[..|run| - 1]);
    }
  }

  lemma {:induction false} EnqueuesGrow<T>(run: seq<Step<T>>, j: nat, k: nat)
    requires j <= k <= |run|
    ensures Enqueues(run[..j]) <= Enqueues(run[..k])
  {
    if j < k {
      EnqueuesGrow(run, j, k - 1);
      assert run[..k][..k - 1] == run[..k - 1];
    }
  }

  lemma {:induction false} StepAccepts<T>(s: State<T>, a: Step<T>)
    requires Enabled(s, a)
    ensures a.Enqueue? ==> a.i < |s.pending| && Apply(s, a).accepted == s.accepted + [s.pending[a.i]]
    ensures !a.Enqueue? ==> Apply(s, a).accepted == s.accepted
  {
  }

  lemma {:induction false} StepTasks<T>(s: State<T>, a: Step<T>)
    requires Enabled(s, a)
    ensures multiset(Apply(s, a).accepted) + multiset(Apply(s, a).pending)
         == multiset(s.accepted) + multiset(s.pending) + if a.AddTest? then multiset{a.task} else multiset{}
  {
    if a.Enqueue? {
      var p := s.pending;
      assert p == p[..a.i] + [p[a.i]] + p[a.i + 1..];
    }
  }

  /** Each task that was let through is accepted or still on the way, once per call. */
  lemma {:induction false} AcceptedOrPending<T>(run: seq<Step<T>>)
    requires Legal(run)
    ensures multiset(Tested(run)) == multiset(Run(run).accepted) + multiset(Run(run).pending)
  {
    hide Apply;
    if run != [] {
      var before, a := run[..|run| - 1], run[|run| - 1];
      AcceptedOrPending(before);
      StepTasks(Run(before), a);
    }
  }

  /** accepted is the order of the Enqueue steps: each one appends the task of its call, and no other step touches
      it. */
  lemma {:induction false} AcceptedInOrder<T>(run: seq<Step<T>>, k: nat)
    requires Legal(run) && k <= |run|
    ensures Legal(run[..k]) && Run(run[..k]).accepted <= Run(run).accepted
    ensures k < |run| ==> Legal(run[..k + 1])
    ensures k < |run| && run[k].Enqueue? ==>
              run[k].i < |Run(run[..k]).pending|
              && Run(run[..k + 1]).accepted == Run(run[..k]).accepted + [Run(run[..k]).pending[run[k].i]]
    ensures k < |run| && !run[k].Enqueue? ==> Run(run[..k + 1]).accepted == Run(run[..k]).accepted
    decreases |run|
  {
    hide Apply;
    hide Enabled;
    if k < |run| {
      LegalPrefix(run, k);
      LegalPrefix(run, k + 1);
      assert run[..k + 1][..k] == run[..k];
      StepAccepts(Run(run[..k]), run[k]);
      var before, a := run[..|run| - 1], run[|run| - 1];
      StepAccepts(Run(before), a);
      AcceptedInOrder(before, k);
      assert before[..k] == run[..k];
    } else {
      assert run[..k] == run;
    }
  }

  /** The worker of a Take step gets the next accepted task; it was enqueued before. */
  lemma {:induction false} TakeRuns<T>(run: seq<Step<T>>, t: nat)
    requires Legal(run) && t < |run| && run[t].Take?
    ensures Legal(run[..t]) && Legal(run[..t + 1]) && run[t].w < |Run(run[..t + 1]).workers|
    ensures Run(run[..t + 1]).workers[run[t].w] == Running(Takes(run[..t])) && Takes(run[..t]) < Enqueues(run[..t])
  {
    LegalPrefix(run, t);
    LegalPrefix(run, t + 1);
    assert run[..t + 1][..t] == run[..t];
    Counts(run[..t]);
    RunKeepsInv(run[..t]);
  }

  /** First in, first out: the worker of the n-th Take runs the task of the n-th Enqueue, which came before. */
  lemma {:induction false} FirstInFirstOut<T>(run: seq<Step<T>>, e: nat, t: nat)
    requires Legal(run) && e < |run| && t < |run| && run[e].Enqueue? && run[t].Take?
    requires Enqueues(run[..e]) == Takes(run[..t])
    ensures Legal(run[..e]) && Legal(run[..t + 1]) && e < t && run[e].i < |Run(run[..e]).pending|
    ensures run[t].w < |Run(run[..t + 1]).workers|
    ensures Run(run[..t + 1]).workers[run[t].w] == Running(Enqueues(run[..e]))
    ensures Enqueues(run[..e]) < |Run(run).accepted|
    ensures Run(run).accepted[Enqueues(run[..e])] == Run(run[..e]).pending[run[e].i]
  {
    hide Run;
    hide Legal;
    hide Enqueues;
    hide Takes;
    TakeRuns(run, t);
    LegalPrefix(run, e);
    AcceptedInOrder(run, e);
    AcceptedInOrder(run, e + 1);
    Counts(run[..e]);
    if t <= e { EnqueuesGrow(run, t, e); }
  }

  /** Every worker has left its loop. */
  ghost predicate Gone<T>(s: State<T>) {
    s.workers != [] && forall w :: 0 <= w < |s.workers| ==> s.workers[w] == Exited
  }

  /** The k-th step enqueues a task after the last worker has left. */
  ghost predicate TooLate<T>(run: seq<Step<T>>, k: nat)
    requires Legal(run) && k < |run|
  {
    LegalPrefix(run, k);
    run[k].Enqueue? && Gone(Run(run[..k]))
  }

  /** What one step does to the departure of the workers and to the queue. */
  lemma {:induction false} GoneStep<T>(s: State<T>, a: Step<T>)
    requires Inv(s) && Enabled(s, a)
    ensures Gone(s) ==> Gone(Apply(s, a)) && (Apply(s, a).queue == [] <==> s.queue == [] && !a.Enqueue?)
    ensures !Gone(s) && Gone(Apply(s, a)) ==> !a.Enqueue? && Apply(s, a).queue == []
  {
    hide Conserved;
    var s' := Apply(s, a);
    if Gone(s) {
      assert s.workers[0] == Exited;
    }
    if a.Take? || a.Exit? || a.Finish? {
      assert s'.workers[a.w] == if a.Exit? then Exited else if a.Take? then Running(s.taken) else Idle;
      assert forall w :: 0 <= w < |s.workers| && w != a.w ==> s'.workers[w] == s.workers[w];
    }
    if a.Spawn? {
      assert s'.workers[|s.workers|] == Idle;
    }
  }

  lemma {:induction false} SamePrefixes<T>(run: seq<Step<T>>, before: seq<Step<T>>)
    requires Legal(run) && Legal(before) && run != [] && before == run[..|run| - 1]
    ensures forall k :: 0 <= k < |before| ==> TooLate(run, k) == TooLate(before, k)
  {
    forall k | 0 <= k < |before| ensures TooLate(run, k) == TooLate(before, k) {
      assert before[..k] == run[..k] && before[k] == run[k];
    }
  }

  lemma {:induction false} GoneStays<T>(run: seq<Step<T>>, k: nat)
    requires Legal(run) && k <= |run| && Legal(run[..k]) && Gone(Run(run[..k]))
    ensures Gone(Run(run))
    decreases |run|
  {
    hide Inv;
    hide Apply;
    hide Gone;
    if k == |run| {
      assert run[..k] == run;
    } else {
      var before := run[..|run| - 1];
      assert before[..k] == run[..k];
      GoneStays(before, k);
      RunKeepsInv(before);
      GoneStep(Run(before), run[|run| - 1]);
    }
  }

  /** Once all workers are gone the queue holds exactly what came too late. */
  lemma {:induction false} LeftoverIsLate<T>(run: seq<Step<T>>)
    requires Legal(run) && Gone(Run(run))
    ensures Run(run).queue == [] <==> forall k :: 0 <= k < |run| ==> !TooLate(run, k)
  {
    hide Inv;
    hide Apply;
    if run == [] {
      return;
    }
    var n := |run| - 1;
    var before, a := run[..n], run[n];
    RunKeepsInv(before);
    GoneStep(Run(before), a);
    SamePrefixes(run, before);
    LegalPrefix(run, n);
    assert TooLate(run, n) <==> a.Enqueue? && Gone(Run(before));
    if Gone(Run(before)) {
      LeftoverIsLate(before);
      if forall k :: 0 <= k < n ==> !TooLate(before, k) {
        assert forall k :: 0 <= k < n ==> !TooLate(run, k);
      } else {
        var k :| 0 <= k < n && TooLate(before, k);
        assert TooLate(run, k);
      }
    } else {
      forall k | 0 <= k < |run| ensures !TooLate(run, k) {
        if k < n && TooLate(before, k) {
          LegalPrefix(before, k);
          GoneStays(before, k);
        }
      }
    }
  }

  /** Every accepted task has been completed exactly once, and nothing else has. */
  ghost predicate AllCompletedOnce<T>(s: State<T>) {
    forall i: nat :: OnceBelow(|s.accepted|, i, Times(s.done, i))
  }

  /** Once Stop has joined all workers, and there was at least one, every accepted task has been completed exactly
      once if and only if none was enqueued after the last worker left. */
  lemma {:induction false} StopCompletes<T>(run: seq<Step<T>>)
    requires Legal(run) && Run(run).workers != [] && Run(run).joined == |Run(run).workers|
    ensures AllCompletedOnce(Run(run)) <==> forall k :: 0 <= k < |run| ==> !TooLate(run, k)
  {
    RunKeepsInv(run);
    var s := Run(run);
    assert Gone(s);
    LeftoverIsLate(run);
    forall i: nat ensures OnceBelow(s.taken, i, Times(s.done, i)) {
      NoHolders(s.workers, i);
      assert OnceBelow(s.taken, i, Times(s.done, i) + Holders(s.workers, i));
    }
    if s.taken < |s.accepted| {
      assert OnceBelow(s.taken, s.taken, Times(s.done, s.taken));
      assert !OnceBelow(|s.accepted|, s.taken, Times(s.done, s.taken));
    }
  }

  /** In particular if nothing is enqueued once the stop flag is set. */
  lemma {:induction false} QuietStopCompletes<T>(run: seq<Step<T>>)
    requires Legal(run) && Run(run).workers != [] && Run(run).joined == |Run(run).workers|
    requires forall k :: 0 <= k < |run| && Legal(run[..k]) && Run(run[..k]).stop ==> !run[k].Enqueue?
    ensures AllCompletedOnce(Run(run))
  {
    hide Run;
    StopCompletes(run);
    forall k | 0 <= k < |run| ensures !TooLate(run, k) {
      LegalPrefix(run, k);
      RunKeepsInv(run[..k]);
      if Gone(Run(run[..k])) {
        assert Run(run[..k]).workers[0] == Exited;
      }
    }
  }

  lemma {:induction false} NoSteps<T>()
    ensures Legal<T>([]) && Run<T>([]) == Initial()
  {
  }

  lemma {:induction false} OneStep<T>(run: seq<Step<T>>, a: Step<T>) returns (next: seq<Step<T>>)
    requires Legal(run) && Enabled(Run(run), a)
    ensures next == run + [a] && Legal(next) && Run(next) == Apply(Run(run), a)
  {
    next := run + [a];
    assert next[..|run|] == run;
  }

  /** The condition matters: a task tested before the stop, enqueued after the only worker left, is never run. */
  lemma {:induction false} LateTaskIsLost<T>(t: T) returns (run: seq<Step<T>>)
    ensures Legal(run) && Run(run).cleared && Run(run).accepted == [t] && Run(run).done == [] && Run(run).queue == [t]
  {
    hide Legal;
    hide Run;
    var r0: seq<Step<T>> := [];
    NoSteps<T>();
    var r1 := OneStep(r0, Spawn);
    var r2 := OneStep(r1, AddTest(t));
    var r3 := OneStep(r2, SetStop);
    var r4 := OneStep(r3, Exit(0));
    var r5 := OneStep(r4, Join);
    var r6 := OneStep(r5, Clear);
    run := OneStep(r6, Enqueue(0));
  }
}
