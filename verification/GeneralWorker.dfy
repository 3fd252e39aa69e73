// The worker as the object it is in the source. Each method is run here by one thread with nobody in between;
// its body is proved to be a run of the transition system's steps, so what holds of every interleaving of those
// steps holds of the code that makes them.
module GeneralWorker {
  import opened Worker
  import opened WorkerTheorems

  // The table after inserting timers one by one under their ids.
  function InstallAll(table: map<TimerId, Timer>, timers: seq<Timer>): map<TimerId, Timer> {
    if timers == [] then table
    else var last := timers[|timers| - 1]; InstallAll(table, timers[..|timers| - 1])[last.id := last]
  }

  function Ids(ids: seq<TimerId>): set<TimerId> {
    set id | id in ids
  }

  lemma RemoveOneMore(table: map<TimerId, Timer>, ids: seq<TimerId>, i: nat)
    requires i < |ids|
    ensures table - Ids(ids[..i + 1]) == table - Ids(ids[..i]) - {ids[i]}
  {
    assert ids[..i + 1] == ids[..i] + [ids[i]];
  }

  class EventWorker {
    var stopped: bool
    var nextTimerId: nat
    var eventFd: nat
    var pendingTasks: seq<Task>
    var pendingTimers: seq<Timer>
    var purgingTimers: seq<TimerId>
    var activeTimers: map<TimerId, Timer>
    var loopExit: bool
    // The transition system's state: these fields, the threads' positions and the histories.
    ghost var model: State

    ghost predicate Valid()
      reads this
    {
      && model.stopped == stopped && model.nextTimerId == nextTimerId && model.eventFd == eventFd
      && model.pendingTasks == pendingTasks && model.pendingTimers == pendingTimers
      && model.purgingTimers == purgingTimers && model.activeTimers == activeTimers && model.loopExit == loopExit
    }

    // The state after a successful start().
    constructor ()
      ensures Valid() && model == INITIAL
    {
      stopped, nextTimerId, eventFd, loopExit := false, 0, 0, false;
      pendingTasks, pendingTimers, purgingTimers, activeTimers := [], [], [], map[];
      model := INITIAL;
    }

    // One step of the model, appended to a run.
    ghost method Follow(origin: State, steps: seq<Step>, a: Step) returns (more: seq<Step>)
      requires CanRun(origin, steps) && Run(origin, steps) == model && Enabled(model, a)
      modifies this`model
      ensures model == Apply(old(model), a)
      ensures more == steps + [a] && CanRun(origin, more) && Run(origin, more) == model
    {
      RunSnoc(origin, steps, a);
      more := steps + [a];
      model := Apply(model, a);
    }

    // notify: the write to the eventfd.
    method NotifyConsumer(p: Pid, ghost origin: State, ghost steps: seq<Step>) returns (ghost more: seq<Step>)
      requires Valid() && (Pc(model, p).Notify? || Pc(model, p).NotifyStop?)
      requires CanRun(origin, steps) && Run(origin, steps) == model
      modifies this`eventFd, this`model
      ensures Valid() && eventFd == old(eventFd) + 1
      ensures more == steps + [WriteFd(p)] && CanRun(origin, more) && Run(origin, more) == model
    {
      eventFd := eventFd + 1;
      more := Follow(origin, steps, WriteFd(p));
    }

    method AddTask(p: Pid, task: Task) returns (ghost steps: seq<Step>)
      requires Valid() && Pc(model, p).Idle?
      modifies this
      ensures Valid() && steps == [CallAddTask(p, task), PushTask(p), WriteFd(p)]
      ensures CanRun(old(model), steps) && model == Run(old(model), steps)
      ensures pendingTasks == old(pendingTasks) + [task] && eventFd == old(eventFd) + 1
    {
      ghost var origin := model;
      steps := Follow(origin, [], CallAddTask(p, task));
      pendingTasks := pendingTasks + [task];
      steps := Follow(origin, steps, PushTask(p));
      steps := NotifyConsumer(p, origin, steps);
    }

    method AddTimerTask(p: Pid, delay: nat, interval: nat) returns (id: TimerId, ghost steps: seq<Step>)
      requires Valid() && Pc(model, p).Idle?
      modifies this
      ensures Valid() && steps == [CallAddTimer(p, delay, interval), PushTimer(p), WriteFd(p)]
      ensures CanRun(old(model), steps) && model == Run(old(model), steps)
      ensures id == old(nextTimerId) % TIMER_IDS
      ensures pendingTimers == old(pendingTimers) + [Timer(id, delay, interval)] && eventFd == old(eventFd) + 1
    {
      ghost var origin := model;
      steps := Follow(origin, [], CallAddTimer(p, delay, interval));
      id := IssuedId(nextTimerId);
      nextTimerId := (nextTimerId + 1) % UINT64;
      pendingTimers := pendingTimers + [Timer(id, delay, interval)];
      steps := Follow(origin, steps, PushTimer(p));
      steps := NotifyConsumer(p, origin, steps);
    }

    method PurgeTimerTask(p: Pid, id: TimerId) returns (ghost steps: seq<Step>)
      requires Valid() && Pc(model, p).Idle?
      modifies this
      ensures Valid() && steps == [CallPurge(p, id), PushPurge(p), WriteFd(p)]
      ensures CanRun(old(model), steps) && model == Run(old(model), steps)
      ensures purgingTimers == old(purgingTimers) + [id] && eventFd == old(eventFd) + 1
    {
      ghost var origin := model;
      steps := Follow(origin, [], CallPurge(p, id));
      purgingTimers := purgingTimers + [id];
      steps := Follow(origin, steps, PushPurge(p));
      steps := NotifyConsumer(p, origin, steps);
    }

    // stop: only the first caller stores the flag and wakes the consumer.
    method Stop(p: Pid) returns (ok: bool, ghost steps: seq<Step>)
      requires Valid() && Pc(model, p).Idle?
      modifies this
      ensures Valid() && ok == !old(stopped) && stopped
      ensures steps == [CallStop(p), LoadStop(p)] + if ok then [StoreStop(p), WriteFd(p)] else []
      ensures CanRun(old(model), steps) && model == Run(old(model), steps)
      ensures eventFd == old(eventFd) + if ok then 1 else 0
    {
      ghost var origin := model;
      steps := Follow(origin, [], CallStop(p));
      steps := Follow(origin, steps, LoadStop(p));
      if stopped { return false, steps; }
      stopped := true;
      steps := Follow(origin, steps, StoreStop(p));
      steps := NotifyConsumer(p, origin, steps);
      ok := true;
    }

    // purgeTimerInternal: find and erase; nothing when the id is not there.
    method PurgeTimerInternal(id: TimerId)
      modifies this`activeTimers
      ensures activeTimers == old(activeTimers) - {id}
    {
      if id in activeTimers {
        activeTimers := activeTimers - {id};
      }
    }

    // The event callback: read the eventfd, then onNotify.
    method OnReadable() returns (ghost steps: seq<Step>)
      requires Valid() && model.consumer.Polling? && eventFd > 0
      modifies this
      ensures Valid() && model.consumer.Polling? && CanRun(old(model), steps) && model == Run(old(model), steps)
      ensures eventFd == 0 && pendingTasks == [] && pendingTimers == [] && purgingTimers == []
      ensures loopExit == (old(loopExit) || old(stopped))
      ensures model.executed == old(model.executed) + old(pendingTasks)
      ensures activeTimers == InstallAll(old(activeTimers), old(pendingTimers)) - Ids(old(purgingTimers))
    {
      ghost var origin := model;
      eventFd := 0;
      steps := Follow(origin, [], ReadFd);
      steps := OnNotify(origin, steps);
    }

    // onNotify: one pass over the three queues.
    method OnNotify(ghost origin: State, ghost before: seq<Step>) returns (ghost steps: seq<Step>)
      requires Valid() && model.consumer.LoadStopped? && CanRun(origin, before) && Run(origin, before) == model
      modifies this
      ensures Valid() && model.consumer.Polling? && CanRun(origin, steps) && model == Run(origin, steps)
      ensures eventFd == old(eventFd) && pendingTasks == [] && pendingTimers == [] && purgingTimers == []
      ensures loopExit == (old(loopExit) || old(stopped))
      ensures model.executed == old(model.executed) + old(pendingTasks)
      ensures activeTimers == InstallAll(old(activeTimers), old(pendingTimers)) - Ids(old(purgingTimers))
    {
      if stopped {
        loopExit := true;
      }
      steps := Follow(origin, before, CheckStopped);
      steps := ProcessTasks(origin, steps);
      steps := ProcessTimers(origin, steps);
      steps := ProcessPurges(origin, steps);
    }

    // The first block of onNotify: swap the queue under the lock, then run the batch.
    method ProcessTasks(ghost origin: State, ghost before: seq<Step>) returns (ghost steps: seq<Step>)
      requires Valid() && model.consumer.SwapTasks? && CanRun(origin, before) && Run(origin, before) == model
      modifies this`pendingTasks, this`model
      ensures Valid() && model.consumer.SwapTimers? && CanRun(origin, steps) && model == Run(origin, steps)
      ensures pendingTasks == [] && model.executed == old(model.executed) + old(pendingTasks)
    {
      var newcomings := pendingTasks;
      pendingTasks := [];
      steps := Follow(origin, before, TakeTasks);
      steps := RunBatch(newcomings, origin, steps);
      steps := Follow(origin, steps, EndTasks);
    }

    method RunBatch(newcomings: seq<Task>, ghost origin: State, ghost before: seq<Step>)
      returns (ghost steps: seq<Step>)
      requires Valid() && model.consumer == RunTasks(newcomings) && CanRun(origin, before)
      requires Run(origin, before) == model
      modifies this`model
      ensures Valid() && model.consumer == RunTasks([]) && CanRun(origin, steps) && model == Run(origin, steps)
      ensures model.executed == old(model.executed) + newcomings
    {
      steps := before;
      var i := 0;
      while i < |newcomings|
        invariant 0 <= i <= |newcomings| && Valid() && model.consumer == RunTasks(newcomings[i..])
        invariant CanRun(origin, steps) && model == Run(origin, steps)
        invariant model.executed == old(model.executed) + newcomings[..i]
      {
        steps := Follow(origin, steps, RunTask);
        assert newcomings[..i + 1] == newcomings[..i] + [newcomings[i]];
        i := i + 1;
      }
      assert newcomings[..i] == newcomings;
    }

    // The second block: swap, then enter each timer in the table.
    method ProcessTimers(ghost origin: State, ghost before: seq<Step>) returns (ghost steps: seq<Step>)
      requires Valid() && model.consumer.SwapTimers? && CanRun(origin, before) && Run(origin, before) == model
      modifies this`pendingTimers, this`activeTimers, this`model
      ensures Valid() && model.consumer.SwapPurges? && CanRun(origin, steps) && model == Run(origin, steps)
      ensures pendingTimers == [] && activeTimers == InstallAll(old(activeTimers), old(pendingTimers))
      ensures model.executed == old(model.executed)
    {
      var newcomings := pendingTimers;
      pendingTimers := [];
      steps := Follow(origin, before, TakeTimers);
      steps := InsertBatch(newcomings, origin, steps);
      steps := Follow(origin, steps, EndTimers);
    }

    method InsertBatch(newcomings: seq<Timer>, ghost origin: State, ghost before: seq<Step>)
      returns (ghost steps: seq<Step>)
      requires Valid() && model.consumer == InsertTimers(newcomings) && CanRun(origin, before)
      requires Run(origin, before) == model
      modifies this`activeTimers, this`model
      ensures Valid() && model.consumer == InsertTimers([]) && CanRun(origin, steps) && model == Run(origin, steps)
      ensures activeTimers == InstallAll(old(activeTimers), newcomings)
      ensures model.executed == old(model.executed)
    {
      steps := before;
      var i := 0;
      while i < |newcomings|
        invariant 0 <= i <= |newcomings| && Valid() && model.consumer == InsertTimers(newcomings[i..])
        invariant CanRun(origin, steps) && model == Run(origin, steps)
        invariant activeTimers == InstallAll(old(activeTimers), newcomings[..i])
        invariant model.executed == old(model.executed)
      {
        activeTimers := activeTimers[newcomings[i].id := newcomings[i]];
        steps := Follow(origin, steps, InsertTimer);
        assert newcomings[..i + 1][..i] == newcomings[..i];
        i := i + 1;
      }
      assert newcomings[..i] == newcomings;
    }

    // The third block: swap, then erase each id that is there.
    method ProcessPurges(ghost origin: State, ghost before: seq<Step>) returns (ghost steps: seq<Step>)
      requires Valid() && model.consumer.SwapPurges? && CanRun(origin, before) && Run(origin, before) == model
      modifies this`purgingTimers, this`activeTimers, this`model
      ensures Valid() && model.consumer.Polling? && CanRun(origin, steps) && model == Run(origin, steps)
      ensures purgingTimers == [] && activeTimers == old(activeTimers) - Ids(old(purgingTimers))
      ensures model.executed == old(model.executed)
    {
      var newcomings := purgingTimers;
      purgingTimers := [];
      steps := Follow(origin, before, TakePurges);
      steps := PurgeBatch(newcomings, origin, steps);
      steps := Follow(origin, steps, EndPass);
    }

    method PurgeBatch(newcomings: seq<TimerId>, ghost origin: State, ghost before: seq<Step>)
      returns (ghost steps: seq<Step>)
      requires Valid() && model.consumer == RunPurges(newcomings) && CanRun(origin, before)
      requires Run(origin, before) == model
      modifies this`activeTimers, this`model
      ensures Valid() && model.consumer == RunPurges([]) && CanRun(origin, steps) && model == Run(origin, steps)
      ensures activeTimers == old(activeTimers) - Ids(newcomings)
      ensures model.executed == old(model.executed)
    {
      steps := before;
      var i := 0;
      while i < |newcomings|
        invariant 0 <= i <= |newcomings| && Valid() && model.consumer == RunPurges(newcomings[i..])
        invariant CanRun(origin, steps) && model == Run(origin, steps)
        invariant activeTimers == old(activeTimers) - Ids(newcomings[..i])
        invariant model.executed == old(model.executed)
      {
        PurgeTimerInternal(newcomings[i]);
        steps := Follow(origin, steps, RunPurge);
        RemoveOneMore(old(activeTimers), newcomings, i);
        i := i + 1;
      }
      assert newcomings[..i] == newcomings;
    }

    // The timer callback: run it, and remove the timer if it is a one-shot.
    method OnTimer(id: TimerId) returns (ghost steps: seq<Step>)
      requires Valid() && model.consumer.Polling? && id in activeTimers
      modifies this`activeTimers, this`model
      ensures Valid() && steps == [Fire(id), EndFire]
      ensures CanRun(old(model), steps) && model == Run(old(model), steps)
      ensures model.fired == old(model.fired) + [id]
      ensures activeTimers == old(activeTimers) - if old(activeTimers)[id].interval == 0 then {id} else {}
    {
      ghost var origin := model;
      steps := Follow(origin, [], Fire(id));
      if activeTimers[id].interval == 0 {
        PurgeTimerInternal(id);
      }
      steps := Follow(origin, steps, EndFire);
    }
  }
}
