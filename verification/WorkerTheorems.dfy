// What every run of the worker guarantees, however its threads interleave.
module WorkerTheorems {
  import opened Worker

  ghost predicate Reaches(steps: seq<Step>, s: State) {
    CanRun(INITIAL, steps) && Run(INITIAL, steps) == s
  }

  ghost predicate Reachable(s: State) {
    exists steps :: Reaches(steps, s)
  }

  lemma ReachableInv(s: State)
    requires Reachable(s)
    ensures Inv(s)
  {
    var steps :| Reaches(steps, s);
    InitialInv();
    RunKeepsInv(INITIAL, steps);
  }

  lemma {:induction false} RunConcat(s: State, a: seq<Step>, b: seq<Step>)
    requires CanRun(s, a) && CanRun(Run(s, a), b)
    ensures CanRun(s, a + b) && Run(s, a + b) == Run(Run(s, a), b)
    decreases |a|
  {
    if a == [] {
      assert a + b == b;
    } else {
      assert (a + b)[1..] == a[1..] + b;
      RunConcat(Apply(s, a[0]), a[1..], b);
    }
  }

  lemma {:induction false} RunSplit(s: State, a: seq<Step>, b: seq<Step>)
    requires CanRun(s, a + b)
    ensures CanRun(s, a) && CanRun(Run(s, a), b) && Run(s, a + b) == Run(Run(s, a), b)
    decreases |a|
  {
    if a == [] {
      assert a + b == b;
    } else {
      assert (a + b)[1..] == a[1..] + b;
      RunSplit(Apply(s, a[0]), a[1..], b);
    }
  }

  lemma RunOne(s: State, a: Step)
    requires Enabled(s, a)
    ensures CanRun(s, [a]) && Run(s, [a]) == Apply(s, a)
  {
    assert [a][1..] == [];
  }

  lemma RunSnoc(s: State, steps: seq<Step>, a: Step)
    requires CanRun(s, steps) && Enabled(Run(s, steps), a)
    ensures CanRun(s, steps + [a]) && Run(s, steps + [a]) == Apply(Run(s, steps), a)
  {
    RunOne(Run(s, steps), a);
    RunConcat(s, steps, [a]);
  }

  lemma ReachableExtends(s: State, steps: seq<Step>)
    requires Reachable(s) && CanRun(s, steps)
    ensures Reachable(Run(s, steps))
  {
    var before :| Reaches(before, s);
    RunConcat(INITIAL, before, steps);
    assert Reaches(before + steps, Run(s, steps));
  }

  // ----- No lost wakeup -----

  // Every entry waiting in any of the three queues will be looked at: its pusher has yet to write the eventfd,
  // or the eventfd is readable, or the consumer has yet to swap that queue.
  lemma NoLostWakeup(s: State)
    requires Reachable(s)
    ensures forall i :: |s.tasks| - |s.pendingTasks| <= i < |s.tasks| && i >= 0
                   ==> WillBeSeen(s, Tasks, i, s.tasks[i].caller)
    ensures forall i :: |s.timers| - |s.pendingTimers| <= i < |s.timers| && i >= 0
                   ==> WillBeSeen(s, Timers, i, s.timers[i].caller)
    ensures forall i :: |s.purges| - |s.purgingTimers| <= i < |s.purges| && i >= 0
                   ==> WillBeSeen(s, Purges, i, s.purges[i].caller)
  {
    ReachableInv(s);
  }

  // When every call has returned, the eventfd is drained and the consumer is back in its loop, everything ever
  // submitted has been carried out, in submission order.
  lemma QuiescentMeansDone(s: State)
    requires Reachable(s)
    requires s.eventFd == 0 && s.consumer.Polling? && forall p :: Pc(s, p).Idle?
    ensures s.executed == Items(s.tasks)
    ensures s.installed == Items(s.timers)
    ensures PurgedIds(s.purged) == Items(s.purges)
  {
    ReachableInv(s);
    QueueLengths(s);
    assert s.pendingTasks != [] ==> WillBeSeen(s, Tasks, |s.tasks| - 1, s.tasks[|s.tasks| - 1].caller);
    assert s.pendingTimers != [] ==> WillBeSeen(s, Timers, |s.timers| - 1, s.timers[|s.timers| - 1].caller);
    assert s.purgingTimers != [] ==> WillBeSeen(s, Purges, |s.purges| - 1, s.purges[|s.purges| - 1].caller);
    NobodyLeftToLook(s);
  }

  lemma NobodyLeftToLook(s: State)
    requires s.eventFd == 0 && s.consumer.Polling? && forall p :: Pc(s, p).Idle?
    ensures forall q, i, p :: !WillBeSeen(s, q, i, p)
  {
    forall q, i, p ensures !WillBeSeen(s, q, i, p) {
      assert Pc(s, p).Idle?;
    }
  }

  // A stop is not lost either: in the same situation the loop's exit has been requested, and nothing keeps the
  // loop from ending.
  lemma StopIsNoticed(s: State)
    requires Reachable(s) && s.stopped
    requires s.eventFd == 0 && s.consumer.Polling? && forall p :: Pc(s, p).Idle?
    ensures s.loopExit && Enabled(s, Exit)
  {
    ReachableInv(s);
    assert forall p :: !Pc(s, p).NotifyStop?;
  }

  // The consumer's own next step.
  function ConsumerStep(c: ConsumerPc): Step {
    match c
    case Polling => ReadFd
    case Firing(_) => EndFire
    case LoadStopped => CheckStopped
    case SwapTasks => TakeTasks
    case RunTasks(ts) => if ts == [] then EndTasks else RunTask
    case SwapTimers => TakeTimers
    case InsertTimers(ts) => if ts == [] then EndTimers else InsertTimer
    case SwapPurges => TakePurges
    case RunPurges(ids) => if ids == [] then EndPass else RunPurge
    case Exited => Exit
  }

  // The consumer is never stuck inside a pass or a callback, nor in its loop while the eventfd is readable: one
  // of its own steps is possible.
  lemma ConsumerNeverStuck(s: State)
    requires Reachable(s) && |s.timers| <= TIMER_IDS
    requires !s.consumer.Exited? && (s.consumer.Polling? ==> s.eventFd > 0)
    ensures Enabled(s, ConsumerStep(s.consumer))
  {
    ReachableInv(s);
  }

  // ----- First in, first out -----

  // Executed tasks, then the batch being run, then the queue: together exactly the submissions in the order in
  // which the lock was taken. So each task runs at most once and in turn.
  lemma TasksRunInOrder(s: State)
    requires Reachable(s)
    ensures s.executed + TaskBatch(s) + s.pendingTasks == Items(s.tasks)
    ensures s.executed == Items(s.tasks)[..|s.executed|]
  {
    ReachableInv(s);
    assert Items(s.tasks)[..|s.executed|] == s.executed;
  }

  // What a run only ever adds to.
  ghost predicate Extends(s: State, t: State) {
    && s.tasks <= t.tasks && s.timers <= t.timers
    && (s.tasksAtStop.Some? ==> t.tasksAtStop == s.tasksAtStop)
  }

  lemma StepExtends(s: State, a: Step)
    requires Enabled(s, a)
    ensures Extends(s, Apply(s, a))
  {
  }

  lemma ExtendsTransitive(s: State, t: State, u: State)
    requires Extends(s, t) && Extends(t, u)
    ensures Extends(s, u)
  {
  }

  lemma {:induction false} RunExtends(s: State, steps: seq<Step>)
    requires CanRun(s, steps)
    ensures Extends(s, Run(s, steps))
    decreases |steps|
  {
    if steps != [] {
      var t := Apply(s, steps[0]);
      StepExtends(s, steps[0]);
      RunExtends(t, steps[1..]);
      ExtendsTransitive(s, t, Run(t, steps[1..]));
    }
  }

  // ----- Drain before exit -----

  // In any state after the pass that requested the loop's exit has run its tasks, everything submitted before
  // the stop flag was first stored has been executed.
  lemma DrainedWhenExiting(s: State)
    requires Reachable(s) && s.loopExit
    requires !(s.consumer.SwapTasks? || s.consumer.RunTasks?)
    ensures s.tasksAtStop.Some? && s.tasksAtStop.value <= |s.executed| <= |s.tasks|
    ensures Items(s.tasks)[..s.tasksAtStop.value] == s.executed[..s.tasksAtStop.value]
  {
    ReachableInv(s);
    TasksRunInOrder(s);
    QueueLengths(s);
  }

  // Over whole runs: whatever was submitted before the stop flag was first stored has been executed, in order,
  // by the time the loop has exited or the pass that requested the exit is over.
  lemma DrainBeforeExit(before: seq<Step>, p: Pid, after: seq<Step>)
    requires CanRun(INITIAL, before + [StoreStop(p)] + after)
    ensures CanRun(INITIAL, before)
    ensures var s := Run(INITIAL, before);
            var t := Run(INITIAL, before + [StoreStop(p)] + after);
            !s.stopped && t.loopExit && (t.consumer.Exited? || t.consumer.Polling?) ==> Items(s.tasks) <= t.executed
  {
    RunSplit(INITIAL, before + [StoreStop(p)], after);
    RunSplit(INITIAL, before, [StoreStop(p)]);
    var s := Run(INITIAL, before);
    var m := Run(INITIAL, before + [StoreStop(p)]);
    var t := Run(INITIAL, before + [StoreStop(p)] + after);
    RunOne(s, StoreStop(p));
    assert m == Apply(s, StoreStop(p));
    assert Reaches(before, s);
    assert Reaches(before + [StoreStop(p)] + after, t);
    ReachableInv(s);
    RunExtends(m, after);
    if !s.stopped && t.loopExit && (t.consumer.Exited? || t.consumer.Polling?) {
      DrainedWhenExiting(t);
      assert t.tasksAtStop == Some(|s.tasks|);
      assert Items(t.tasks)[..|s.tasks|] == Items(s.tasks);
    }
  }

  // ----- The life of a timer -----

  predicate Holds(ts: seq<Timer>, id: TimerId) {
    exists i :: 0 <= i < |ts| && ts[i].id == id
  }

  // A timer that has arrived is gone exactly when a purge in time or its only shot has removed it.
  lemma GoneExactly(s: State, id: TimerId)
    requires Reachable(s) && |s.timers| <= TIMER_IDS
    ensures Gone(s, id) <==> id < |s.installed| && (PurgedInTime(s, id) || Spent(s, id))
  {
    ReachableInv(s);
    if Spent(s, id) {
      assert id in multiset(s.fired);
    }
  }

  // Before ids wrap around: the i-th timer issued has id i, and it is in exactly one place: the queue, the
  // batch being inserted, the table, or gone. The table maps its id to that very timer. A timer that has
  // arrived is in the table until one of two things has happened: a purge of it was carried out by a pass that
  // had swapped it in, or it was a one-shot and its callback is over.
  lemma TimerIsInOnePlace(s: State, id: TimerId)
    requires Reachable(s) && |s.timers| <= TIMER_IDS && id < |s.timers|
    ensures s.timers[id].item.id == id
    ensures Holds(s.pendingTimers, id) <==> id >= |s.installed| + |TimerBatch(s)|
    ensures Holds(TimerBatch(s), id) <==> |s.installed| <= id < |s.installed| + |TimerBatch(s)|
    ensures id in s.activeTimers ==> id < |s.installed| && s.activeTimers[id] == s.timers[id].item
    ensures id < |s.installed| ==> (id in s.activeTimers <==> !PurgedInTime(s, id) && !Spent(s, id))
  {
    ReachableInv(s);
    QueueLengths(s);
    GoneExactly(s, id);
    var all := s.installed + TimerBatch(s) + s.pendingTimers;
    var k := |s.installed|;
    var n := k + |TimerBatch(s)|;
    assert all == Items(s.timers);
    forall i | 0 <= i < |s.pendingTimers| ensures s.pendingTimers[i].id == n + i {
      assert all[n + i] == s.timers[n + i].item;
    }
    forall i | 0 <= i < |TimerBatch(s)| ensures TimerBatch(s)[i].id == k + i {
      assert all[k + i] == s.timers[k + i].item;
    }
    if id >= n { assert s.pendingTimers[id - n].id == id; }
    if k <= id < n { assert TimerBatch(s)[id - k].id == id; }
    if id < k { assert all[id] == s.timers[id].item; }
  }

  // The table never holds anything that was not issued.
  lemma TableHoldsIssued(s: State, id: TimerId)
    requires Reachable(s) && |s.timers| <= TIMER_IDS && id in s.activeTimers
    ensures id < |s.timers| && s.activeTimers[id] == s.timers[id].item
  {
    ReachableInv(s);
    QueueLengths(s);
    TimerIsInOnePlace(s, id);
  }

  // A one-shot timer fires at most once, and when its callback is over it is gone.
  lemma OneShotFiresOnce(s: State, id: TimerId)
    requires Reachable(s) && |s.timers| <= TIMER_IDS && id < |s.installed| && s.installed[id].interval == 0
    ensures multiset(s.fired)[id] <= 1
    ensures id in s.fired && s.consumer != Firing(id) ==> Gone(s, id)
  {
    ReachableInv(s);
    if id in s.fired {
      assert id in multiset(s.fired);
    }
  }

  lemma GoneStep(s: State, a: Step, id: TimerId)
    requires Enabled(s, a) && Inv(s) && |s.timers| <= TIMER_IDS && Gone(s, id)
    ensures Gone(Apply(s, a), id) && multiset(Apply(s, a).fired)[id] == multiset(s.fired)[id]
  {
    GoneStays(s, a, id);
    if a.Fire? {
      assert multiset(s.fired + [a.id]) == multiset(s.fired) + multiset{a.id};
    }
  }

  lemma {:induction false} RemovedNeverFires(s: State, steps: seq<Step>, id: TimerId)
    requires Inv(s) && CanRun(s, steps) && |Run(s, steps).timers| <= TIMER_IDS && Gone(s, id)
    ensures Gone(Run(s, steps), id)
    ensures multiset(Run(s, steps).fired)[id] == multiset(s.fired)[id]
    decreases |steps|
  {
    if steps != [] {
      RunExtends(s, steps);
      GoneStep(s, steps[0], id);
      StepKeepsInv(s, steps[0]);
      RemovedNeverFires(Apply(s, steps[0]), steps[1..], id);
    }
  }

  // Once a timer has been removed, by a purge or after its only shot, no continuation of the run brings it back
  // or fires it.
  lemma RemovedForGood(s: State, steps: seq<Step>, id: TimerId)
    requires Reachable(s) && CanRun(s, steps) && |Run(s, steps).timers| <= TIMER_IDS && Gone(s, id)
    ensures id !in Run(s, steps).activeTimers
    ensures multiset(Run(s, steps).fired)[id] == multiset(s.fired)[id]
  {
    ReachableInv(s);
    RemovedNeverFires(s, steps, id);
  }

  // ----- Purging -----

  // A purge takes effect exactly when the timer had been issued before the same pass swapped the timer queue.
  lemma PurgeStepExactly(s: State)
    requires Reachable(s) && |s.timers| <= TIMER_IDS && Enabled(s, RunPurge)
    ensures Gone(Apply(s, RunPurge), s.consumer.ids[0]) <==> s.consumer.ids[0] < s.timersAtSwap
  {
    ReachableInv(s);
  }

  // So every purge whose timer was there in time stays in effect for the rest of the run.
  lemma PurgesTakeEffect(s: State, i: nat)
    requires Reachable(s) && |s.timers| <= TIMER_IDS && i < |s.purged|
    requires s.purged[i].id < s.purged[i].issuedAtSwap
    ensures Gone(s, s.purged[i].id)
  {
    ReachableInv(s);
  }

  // And the condition is needed: a thread can add a repeating timer and purge it between the two swaps of one
  // pass. The purge is then carried out before the timer arrives, and when everything has come to rest the
  // purged timer is still active.
  lemma PurgeCanBeLost() returns (s: State)
    ensures Reachable(s)
    ensures s.eventFd == 0 && s.consumer.Polling? && forall p :: Pc(s, p).Idle?
    ensures s.pendingTimers == [] && s.purgingTimers == []
    ensures Items(s.purges) == [7, 0] && PurgedIds(s.purged) == [7, 0]
    ensures 0 in s.activeTimers && s.activeTimers[0].interval == 10
  {
    s := AT_REST;
    RestIsReached();
    assert Items(s.purges) == [7, 0];
    assert PurgedIds(s.purged) == [7, 0];
  }

  lemma RestIsReached()
    ensures Reachable(AT_REST)
  {
    Wakes();
    PassStarts();
    SwapsTimers();
    AddsTimer();
    PurgesTimer();
    RunsPurges();
    PassEnds();
    NextPassStarts();
    TimerArrives();
    ComesToRest();
  }

  // The run: thread 1 wakes the worker by purging an unknown id; thread 0 adds and purges the timer.

  const REPEATING := Timer(0, 10, 10)
  const CALLED := INITIAL.(purgingTimers := [7], callers := map[1 := Notify(Purges, 0)], purges := [Pushed(7, 1)])
  const WOKEN := CALLED.(eventFd := 1, callers := map[1 := Idle])
  const STARTED := WOKEN.(eventFd := 0, consumer := RunTasks([]))
  const SWAPPED := STARTED.(consumer := InsertTimers([]))
  const CALLING := SWAPPED.(callers := map[0 := AddTimer(10, 10), 1 := Idle])
  const PUSHED := SWAPPED.(nextTimerId := 1, pendingTimers := [REPEATING], timers := [Pushed(REPEATING, 0)],
                           callers := map[0 := Notify(Timers, 0), 1 := Idle])
  const ADDED := PUSHED.(eventFd := 1, callers := map[0 := Idle, 1 := Idle])
  const REQUESTED := ADDED.(purgingTimers := [7, 0], purges := [Pushed(7, 1), Pushed(0, 0)],
                            callers := map[0 := Notify(Purges, 1), 1 := Idle])
  const TAKEN := REQUESTED.(purgingTimers := [], consumer := RunPurges([7, 0]))
  const PURGED := REQUESTED.(purgingTimers := [], purged := [PurgeDone(7, 0), PurgeDone(0, 0)],
                             consumer := RunPurges([]))
  const RETURNED := PURGED.(consumer := Polling)
  const ENDED := PURGED.(consumer := Polling, eventFd := 2, callers := map[0 := Idle, 1 := Idle])
  const RESTARTED := ENDED.(eventFd := 0, consumer := RunTasks([]))
  const ARRIVED := RESTARTED.(pendingTimers := [], activeTimers := map[0 := REPEATING], installed := [REPEATING],
                              timersAtSwap := 1, consumer := InsertTimers([]))
  const AT_REST := ARRIVED.(consumer := Polling)

  lemma Go(s: State, a: Step) returns (t: State)
    requires Reachable(s) && Enabled(s, a)
    ensures Reachable(t) && t == Apply(s, a)
  {
    RunOne(s, a);
    ReachableExtends(s, [a]);
    t := Apply(s, a);
  }

  lemma Calls()
    ensures Reachable(CALLED)
  {
    assert Reaches([], INITIAL);
    var s := Go(INITIAL, CallPurge(1, 7));
    s := Go(s, PushPurge(1));
    assert s == CALLED;
  }

  lemma Wakes()
    ensures Reachable(WOKEN)
  {
    Calls();
    var s := Go(CALLED, WriteFd(1));
    assert s == WOKEN;
  }

  lemma PassStarts()
    requires Reachable(WOKEN)
    ensures Reachable(STARTED)
  {
    var s := Go(WOKEN, ReadFd);
    s := Go(s, CheckStopped);
    s := Go(s, TakeTasks);
    assert s == STARTED;
  }

  lemma SwapsTimers()
    requires Reachable(STARTED)
    ensures Reachable(SWAPPED)
  {
    var s := Go(STARTED, EndTasks);
    s := Go(s, TakeTimers);
    assert s == SWAPPED;
  }

  lemma AddsTimer()
    requires Reachable(SWAPPED)
    ensures Reachable(ADDED)
  {
    PushesTimer();
    var s := Go(PUSHED, WriteFd(0));
    assert s == ADDED;
  }

  lemma PushesTimer()
    requires Reachable(SWAPPED)
    ensures Reachable(PUSHED)
  {
    CallsAddTimer();
    var s := Go(CALLING, PushTimer(0));
    assert s == PUSHED;
  }

  lemma CallsAddTimer()
    requires Reachable(SWAPPED)
    ensures Reachable(CALLING)
  {
    var s := Go(SWAPPED, CallAddTimer(0, 10, 10));
    assert s == CALLING;
  }

  lemma PurgesTimer()
    requires Reachable(ADDED)
    ensures Reachable(REQUESTED)
  {
    var s := Go(ADDED, CallPurge(0, 0));
    s := Go(s, PushPurge(0));
    assert s == REQUESTED;
  }

  lemma RunsPurges()
    requires Reachable(REQUESTED)
    ensures Reachable(PURGED)
  {
    TakesPurges();
    var s := Go(TAKEN, RunPurge);
    assert [7, 0][1..] == [0] && [0][1..] == [];
    s := Go(s, RunPurge);
    assert s.activeTimers == map[] && s.consumer == RunPurges([]);
    assert s == PURGED;
  }

  lemma TakesPurges()
    requires Reachable(REQUESTED)
    ensures Reachable(TAKEN)
  {
    var s := Go(REQUESTED, EndTimers);
    s := Go(s, TakePurges);
    assert s == TAKEN;
  }

  lemma PassReturns()
    requires Reachable(PURGED)
    ensures Reachable(RETURNED)
  {
    var s := Go(PURGED, EndPass);
    assert s == RETURNED;
  }

  lemma PassEnds()
    requires Reachable(PURGED)
    ensures Reachable(ENDED)
  {
    PassReturns();
    var s := Go(RETURNED, WriteFd(0));
    assert s == ENDED;
  }

  lemma NextPassStarts()
    requires Reachable(ENDED)
    ensures Reachable(RESTARTED)
  {
    var s := Go(ENDED, ReadFd);
    s := Go(s, CheckStopped);
    s := Go(s, TakeTasks);
    assert s == RESTARTED;
  }

  lemma TimerArrives()
    requires Reachable(RESTARTED)
    ensures Reachable(ARRIVED)
  {
    var s := Go(RESTARTED, EndTasks);
    s := Go(s, TakeTimers);
    s := Go(s, InsertTimer);
    assert [REPEATING][1..] == [] && s.consumer == InsertTimers([]);
    assert s == ARRIVED;
  }

  lemma ComesToRest()
    requires Reachable(ARRIVED)
    ensures Reachable(AT_REST)
  {
    var s := Go(ARRIVED, EndTimers);
    s := Go(s, TakePurges);
    s := Go(s, EndPass);
    assert s == AT_REST;
  }
}
