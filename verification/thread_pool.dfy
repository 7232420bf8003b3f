/** src/gtl/thread/thread_pool.cc and thread_pool.h: the sections of the pool that run under the
    mutex or touch the shared state in one access, each proved to be one step of PoolRuns.  Any
    interleaving of calls to them is a run. */
module ThreadPools {
  import opened Wrappers
  import opened PoolRuns

  class ThreadPool<T> {
    var stop: bool
    var tasks: seq<T>
    // threads_, where each thread stands in its loop, and how many of them Stop has joined
    var workers: seq<Worker>
    var joined: nat
    var cleared: bool
    // how many tasks have been dequeued; it names the task a worker runs
    var taken: nat
    ghost var pending: seq<T>
    ghost var accepted: seq<T>
    ghost var done: seq<nat>
    // the interleaving so far
    ghost var run: seq<Step<T>>

    ghost function View(): State<T>
      reads this
    {
      State(stop, workers, joined, cleared, pending, tasks, accepted, taken, done)
    }

    ghost predicate Valid()
      reads this
    {
      Legal(run) && Run(run) == View()
    }

    constructor ()
      ensures Valid() && run == []
    {
      stop, tasks, workers, joined, cleared := false, [], [], 0, false;
      pending, accepted, taken, done, run := [], [], 0, [], [];
    }

    /** The state after one more step. */
    lemma {:induction false} Extend(before: seq<Step<T>>, s: State<T>, a: Step<T>)
      requires Legal(before) && Run(before) == s && Enabled(s, a)
      ensures Legal(before + [a]) && Run(before + [a]) == Apply(s, a)
    {
      assert (before + [a])[..|before|] == before;
    }

    ghost function Spawns(n: nat): seq<Step<T>> {
      if n == 0 then [] else Spawns(n - 1) + [Spawn]
    }

    /** threads_.emplace_back(...) */
    method SpawnOne()
      requires Valid() && !stop
      modifies this
      ensures Valid() && run == old(run) + [Spawn] && View() == Apply(old(View()), Spawn)
    {
      Extend(run, View(), Spawn);
      workers := workers + [Idle];
      run := run + [Spawn];
    }

    /** Start(thread_count) */
    method Start(count: nat)
      requires Valid() && !stop
      modifies this
      ensures Valid() && run == old(run) + Spawns(count) && |workers| == |old(workers)| + count
      ensures workers[..|old(workers)|] == old(workers)
      ensures forall i :: |old(workers)| <= i < |workers| ==> workers[i] == Idle
    {
      var i := 0;
      while i < count
        invariant i <= count && Valid() && !stop && run == old(run) + Spawns(i) && |workers| == |old(workers)| + i
        invariant workers[..|old(workers)|] == old(workers)
        invariant forall j :: |old(workers)| <= j < |workers| ==> workers[j] == Idle
      {
        SpawnOne();
        i := i + 1;
      }
    }

    /** AddTask before the lock: refused when there are no threads. */
    method TestThreads(task: T) returns (ok: bool)
      requires Valid()
      modifies this
      ensures Valid() && (ok <==> old(workers) != [] && !old(cleared))
      ensures pending == if ok then old(pending) + [task] else old(pending)
      ensures run == if ok then old(run) + [AddTest(task)] else old(run)
      ensures View() == if ok then Apply(old(View()), AddTest(task)) else old(View())
    {
      if |workers| == 0 || cleared {
        return false;
      }
      Extend(run, View(), AddTest(task));
      pending, run := pending + [task], run + [AddTest(task)];
      return true;
    }

    /** AddTask under the lock, for the i-th call that has passed the test. */
    method EnqueueTask(task: T, ghost i: nat)
      requires Valid() && i < |pending| && pending[i] == task
      modifies this
      ensures Valid() && run == old(run) + [Enqueue(i)] && View() == Apply(old(View()), Enqueue(i))
      ensures tasks == old(tasks) + [task] && accepted == old(accepted) + [task]
      ensures pending == old(pending)[..i] + old(pending)[i + 1..]
    {
      Extend(run, View(), Enqueue(i));
      tasks := tasks + [task];
      pending, accepted, run := pending[..i] + pending[i + 1..], accepted + [task], run + [Enqueue(i)];
    }

    /** Run under the lock, once the wait is over: leave the loop, or take the front task. */
    method TakeOrExit(w: nat) returns (func: Option<T>)
      requires Valid() && w < |workers| && workers[w] == Idle && (tasks != [] || stop)
      modifies this
      ensures Valid() && (func == None <==> old(stop) && old(tasks) == [])
      ensures run == old(run) + [if func == None then Exit(w) else Take(w)]
      ensures View() == Apply(old(View()), if func == None then Exit(w) else Take(w))
      ensures func.Some? ==>
                func.value == old(tasks)[0] && old(taken) < |accepted| && func.value == accepted[old(taken)]
      ensures tasks == if func == None then [] else old(tasks)[1..]
      ensures workers == old(workers)[w := if func == None then Exited else Running(old(taken))]
      ensures taken == old(taken) + (if func == None then 0 else 1) && accepted == old(accepted)
    {
      RunKeepsInv(run);
      if stop && tasks == [] {
        Extend(run, View(), Exit(w));
        workers, run := workers[w := Exited], run + [Exit(w)];
        return None;
      }
      Extend(run, View(), Take(w));
      func := Some(tasks[0]);
      tasks := tasks[1..];
      workers, taken, run := workers[w := Running(taken)], taken + 1, run + [Take(w)];
    }

    /** func() returns */
    method FinishTask(w: nat)
      requires Valid() && w < |workers| && workers[w].Running?
      modifies this
      ensures Valid() && run == old(run) + [Finish(w)] && View() == Apply(old(View()), Finish(w))
      ensures workers == old(workers)[w := Idle] && done == old(done) + [old(workers)[w].task]
    {
      Extend(run, View(), Finish(w));
      done, run := done + [workers[w].task], run + [Finish(w)];
      workers := workers[w := Idle];
    }

    /** Stop: the flag; false if it was set before. */
    method RequestStop() returns (first: bool)
      requires Valid()
      modifies this
      ensures Valid() && stop && first == !old(stop)
      ensures run == if first then old(run) + [SetStop] else old(run)
      ensures View() == if first then Apply(old(View()), SetStop) else old(View())
    {
      if stop {
        return false;
      }
      Extend(run, View(), SetStop);
      stop, run := true, run + [SetStop];
      return true;
    }

    /** Stop: thread.Join() on the next thread, which has to have left its loop. */
    method JoinNext()
      requires Valid() && stop && joined < |workers| && workers[joined] == Exited
      modifies this
      ensures Valid() && run == old(run) + [Join] && View() == Apply(old(View()), Join)
      ensures joined == old(joined) + 1
    {
      Extend(run, View(), Join);
      joined, run := joined + 1, run + [Join];
    }

    /** Stop: threads_.clear().  What then has become of the accepted tasks depends on late arrivals alone. */
    method ClearThreads()
      requires Valid() && stop && joined == |workers| && !cleared
      modifies this
      ensures Valid() && run == old(run) + [Clear] && View() == Apply(old(View()), Clear)
      ensures cleared
      ensures workers != [] ==> (AllCompletedOnce(View()) <==> forall k :: 0 <= k < |run| ==> !TooLate(run, k))
    {
      Extend(run, View(), Clear);
      cleared, run := true, run + [Clear];
      if workers != [] {
        StopCompletes(run);
      }
    }
  }
}
