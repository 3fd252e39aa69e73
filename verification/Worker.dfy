// The event-loop worker as a transition system. Any number of threads call its methods while one consumer
// thread runs the event loop; every section under the lock, every access to the stop flag, every read or write
// of the eventfd and every callback is one step, and steps interleave freely. Tasks and callbacks are opaque
// tokens, the eventfd is a counter.
module Worker {

  type Task = int
  type Pid = nat
  type TimerId = nat

  // The ids that fit in TIMER_ID_BITS, 48 bits.
  const TIMER_IDS: nat := 0x1_0000_0000_0000
  const UINT64: nat := 0x1_0000_0000_0000_0000

  datatype Timer = Timer(id: TimerId, delay: nat, interval: nat)

  // The three queues under m_lock.
  datatype Queue = Tasks | Timers | Purges

  // Where a calling thread is. Notify is the point between the lock section and the write to the eventfd; the
  // ticket names the entry just pushed.
  datatype CallerPc =
    | Idle
    | AddTask(task: Task)
    | AddTimer(delay: nat, interval: nat)
    | PurgeTimer(id: TimerId)
    | StopLoad
    | StopStore
    | Notify(queue: Queue, ticket: nat)
    | NotifyStop

  // Where the consumer is: in the event loop, in a timer callback, or in onNotify.
  datatype ConsumerPc =
    | Polling
    | Firing(id: TimerId)
    | LoadStopped
    | SwapTasks
    | RunTasks(tasks: seq<Task>)
    | SwapTimers
    | InsertTimers(timers: seq<Timer>)
    | SwapPurges
    | RunPurges(ids: seq<TimerId>)
    | Exited

  datatype Option<T> = None | Some(value: T)

  // The entry of a history: what was pushed and by whom.
  datatype Pushed<T> = Pushed(item: T, caller: Pid)

  // One purge as the consumer carried it out, with the number of timers that had been issued when the same pass
  // swapped the timer queue.
  datatype PurgeDone = PurgeDone(id: TimerId, issuedAtSwap: nat)

  datatype State = State(
    // the worker's fields
    stopped: bool,
    nextTimerId: nat,
    eventFd: nat,
    pendingTasks: seq<Task>,
    pendingTimers: seq<Timer>,
    purgingTimers: seq<TimerId>,
    activeTimers: map<TimerId, Timer>,
    loopExit: bool,
    // the threads
    callers: map<Pid, CallerPc>,
    consumer: ConsumerPc,
    // what happened so far: pushes in the order in which the lock was taken, and effects
    tasks: seq<Pushed<Task>>,
    timers: seq<Pushed<Timer>>,
    purges: seq<Pushed<TimerId>>,
    executed: seq<Task>,
    installed: seq<Timer>,
    fired: seq<TimerId>,
    purged: seq<PurgeDone>,
    tasksAtStop: Option<nat>,
    timersAtSwap: nat
  )

  // A worker whose start() has returned.
  const INITIAL := State(false, 0, 0, [], [], [], map[], false, map[], Polling,
                         [], [], [], [], [], [], [], None, 0)

  function Pc(s: State, p: Pid): CallerPc {
    if p in s.callers then s.callers[p] else Idle
  }

  datatype Step =
    // a thread enters a call
    | CallAddTask(p: Pid, task: Task)
    | CallAddTimer(p: Pid, delay: nat, interval: nat)
    | CallPurge(p: Pid, id: TimerId)
    | CallStop(p: Pid)
    // and carries it on
    | PushTask(p: Pid)
    | PushTimer(p: Pid)
    | PushPurge(p: Pid)
    | LoadStop(p: Pid)
    | StoreStop(p: Pid)
    | WriteFd(p: Pid)
    // the consumer
    | ReadFd
    | CheckStopped
    | TakeTasks
    | RunTask
    | EndTasks
    | TakeTimers
    | InsertTimer
    | EndTimers
    | TakePurges
    | RunPurge
    | EndPass
    | Fire(id: TimerId)
    | EndFire
    | Exit

  predicate Enabled(s: State, a: Step) {
    match a
    case CallAddTask(p, _) => Pc(s, p).Idle?
    case CallAddTimer(p, _, _) => Pc(s, p).Idle?
    case CallPurge(p, _) => Pc(s, p).Idle?
    case CallStop(p) => Pc(s, p).Idle?
    case PushTask(p) => Pc(s, p).AddTask?
    case PushTimer(p) => Pc(s, p).AddTimer?
    case PushPurge(p) => Pc(s, p).PurgeTimer?
    case LoadStop(p) => Pc(s, p).StopLoad?
    case StoreStop(p) => Pc(s, p).StopStore?
    case WriteFd(p) => Pc(s, p).Notify? || Pc(s, p).NotifyStop?
    case ReadFd => s.consumer.Polling? && s.eventFd > 0
    case CheckStopped => s.consumer.LoadStopped?
    case TakeTasks => s.consumer.SwapTasks?
    case RunTask => s.consumer.RunTasks? && s.consumer.tasks != []
    case EndTasks => s.consumer.RunTasks? && s.consumer.tasks == []
    case TakeTimers => s.consumer.SwapTimers?
    case InsertTimer => s.consumer.InsertTimers? && s.consumer.timers != []
    case EndTimers => s.consumer.InsertTimers? && s.consumer.timers == []
    case TakePurges => s.consumer.SwapPurges?
    case RunPurge => s.consumer.RunPurges? && s.consumer.ids != []
    case EndPass => s.consumer.RunPurges? && s.consumer.ids == []
    case Fire(id) => s.consumer.Polling? && id in s.activeTimers
    case EndFire => s.consumer.Firing? && s.consumer.id in s.activeTimers
    case Exit => s.consumer.Polling? && s.loopExit
  }

  // nextTimerId(): the low 48 bits of a 64-bit counter.
  function IssuedId(next: nat): TimerId {
    next % TIMER_IDS
  }

  function Set(s: State, p: Pid, pc: CallerPc): State {
    s.(callers := s.callers[p := pc])
  }

  function Apply(s: State, a: Step): State
    requires Enabled(s, a)
  {
    match a
    case CallAddTask(p, t) => Set(s, p, AddTask(t))
    case CallAddTimer(p, d, i) => Set(s, p, AddTimer(d, i))
    case CallPurge(p, id) => Set(s, p, PurgeTimer(id))
    case CallStop(p) => Set(s, p, StopLoad)
    case PushTask(p) =>
      var t := Pc(s, p).task;
      Set(s, p, Notify(Tasks, |s.tasks|)).(pendingTasks := s.pendingTasks + [t], tasks := s.tasks + [Pushed(t, p)])
    case PushTimer(p) =>
      var t := Timer(IssuedId(s.nextTimerId), Pc(s, p).delay, Pc(s, p).interval);
      Set(s, p, Notify(Timers, |s.timers|)).(
        nextTimerId := (s.nextTimerId + 1) % UINT64,
        pendingTimers := s.pendingTimers + [t], timers := s.timers + [Pushed(t, p)])
    case PushPurge(p) =>
      var id := Pc(s, p).id;
      Set(s, p, Notify(Purges, |s.purges|)).(
        purgingTimers := s.purgingTimers + [id], purges := s.purges + [Pushed(id, p)])
    case LoadStop(p) => Set(s, p, if s.stopped then Idle else StopStore)
    case StoreStop(p) =>
      Set(s, p, NotifyStop).(stopped := true,
                             tasksAtStop := if s.tasksAtStop.None? then Some(|s.tasks|) else s.tasksAtStop)
    case WriteFd(p) => Set(s, p, Idle).(eventFd := s.eventFd + 1)
    case ReadFd => s.(eventFd := 0, consumer := LoadStopped)
    case CheckStopped => s.(loopExit := s.loopExit || s.stopped, consumer := SwapTasks)
    case TakeTasks => s.(consumer := RunTasks(s.pendingTasks), pendingTasks := [])
    case RunTask =>
      var ts := s.consumer.tasks;
      s.(executed := s.executed + [ts[0]], consumer := RunTasks(ts[1..]))
    case EndTasks => s.(consumer := SwapTimers)
    case TakeTimers =>
      s.(consumer := InsertTimers(s.pendingTimers), pendingTimers := [], timersAtSwap := |s.timers|)
    case InsertTimer =>
      var ts := s.consumer.timers;
      s.(activeTimers := s.activeTimers[ts[0].id := ts[0]], installed := s.installed + [ts[0]],
         consumer := InsertTimers(ts[1..]))
    case EndTimers => s.(consumer := SwapPurges)
    case TakePurges => s.(consumer := RunPurges(s.purgingTimers), purgingTimers := [])
    case RunPurge =>
      var ids := s.consumer.ids;
      s.(activeTimers := s.activeTimers - {ids[0]}, purged := s.purged + [PurgeDone(ids[0], s.timersAtSwap)],
         consumer := RunPurges(ids[1..]))
    case EndPass => s.(consumer := Polling)
    case Fire(id) => s.(fired := s.fired + [id], consumer := Firing(id))
    case EndFire =>
      var id := s.consumer.id;
      s.(activeTimers := if s.activeTimers[id].interval == 0 then s.activeTimers - {id} else s.activeTimers,
         consumer := Polling)
    case Exit => s.(consumer := Exited)
  }

  predicate CanRun(s: State, steps: seq<Step>)
    decreases |steps|
  {
    steps == [] || (Enabled(s, steps[0]) && CanRun(Apply(s, steps[0]), steps[1..]))
  }

  function Run(s: State, steps: seq<Step>): State
    requires CanRun(s, steps)
    decreases |steps|
  {
    if steps == [] then s else Run(Apply(s, steps[0]), steps[1..])
  }

  // ----- Projections -----

  function Items<T>(h: seq<Pushed<T>>): (r: seq<T>)
    ensures |r| == |h| && forall i :: 0 <= i < |h| ==> r[i] == h[i].item
  {
    seq(|h|, i requires 0 <= i < |h| => h[i].item)
  }

  function PurgedIds(h: seq<PurgeDone>): (r: seq<TimerId>)
    ensures |r| == |h| && forall i :: 0 <= i < |h| ==> r[i] == h[i].id
  {
    seq(|h|, i requires 0 <= i < |h| => h[i].id)
  }

  function TaskBatch(s: State): seq<Task> {
    if s.consumer.RunTasks? then s.consumer.tasks else []
  }

  function TimerBatch(s: State): seq<Timer> {
    if s.consumer.InsertTimers? then s.consumer.timers else []
  }

  function PurgeBatch(s: State): seq<TimerId> {
    if s.consumer.RunPurges? then s.consumer.ids else []
  }

  // The consumer has read the eventfd but not yet swapped the queue.
  predicate BeforeSwap(c: ConsumerPc, q: Queue) {
    match q
    case Tasks => c.LoadStopped? || c.SwapTasks?
    case Timers => c.LoadStopped? || c.SwapTasks? || c.RunTasks? || c.SwapTimers?
    case Purges => !(c.Polling? || c.Firing? || c.RunPurges? || c.Exited?)
  }

  // Somebody will look at entry i of queue q: its pusher has yet to write the eventfd, or the eventfd is
  // readable, or the consumer has still to swap the queue.
  predicate WillBeSeen(s: State, q: Queue, i: int, caller: Pid) {
    s.eventFd > 0 || BeforeSwap(s.consumer, q) || (i >= 0 && Pc(s, caller) == Notify(q, i))
  }

  // ----- The invariant -----

  ghost predicate TasksInOrder(s: State) {
    s.executed + TaskBatch(s) + s.pendingTasks == Items(s.tasks)
  }

  ghost predicate TimersInOrder(s: State) {
    s.installed + TimerBatch(s) + s.pendingTimers == Items(s.timers)
  }

  ghost predicate PurgesInOrder(s: State) {
    PurgedIds(s.purged) + PurgeBatch(s) + s.purgingTimers == Items(s.purges)
  }

  // Nothing is lost, duplicated or reordered between a push and its effect.
  ghost predicate QueuesInOrder(s: State) {
    TasksInOrder(s) && TimersInOrder(s) && PurgesInOrder(s)
  }

  ghost predicate TasksSeen(s: State) {
    forall i :: |s.tasks| - |s.pendingTasks| <= i < |s.tasks| && i >= 0
                ==> WillBeSeen(s, Tasks, i, s.tasks[i].caller)
  }

  ghost predicate TimersSeen(s: State) {
    forall i :: |s.timers| - |s.pendingTimers| <= i < |s.timers| && i >= 0
                ==> WillBeSeen(s, Timers, i, s.timers[i].caller)
  }

  ghost predicate PurgesSeen(s: State) {
    forall i :: |s.purges| - |s.purgingTimers| <= i < |s.purges| && i >= 0
                ==> WillBeSeen(s, Purges, i, s.purges[i].caller)
  }

  ghost predicate NobodyForgotten(s: State) {
    TasksSeen(s) && TimersSeen(s) && PurgesSeen(s)
  }

  ghost predicate StopIsRecorded(s: State) {
    && (s.stopped <==> s.tasksAtStop.Some?)
    && (s.tasksAtStop.Some? ==> s.tasksAtStop.value <= |s.tasks|)
    && (s.loopExit ==> s.stopped)
    && (s.consumer.Exited? ==> s.loopExit)
  }

  ghost predicate StopIsDrained(s: State) {
    s.loopExit && s.tasksAtStop.Some? && !s.consumer.SwapTasks? ==>
      |s.executed| + |TaskBatch(s)| >= s.tasksAtStop.value
  }

  // A stop that the consumer has not acted upon: its caller has yet to write the eventfd, or the eventfd is
  // readable, or the consumer is about to look at the flag.
  ghost predicate StopIsSeen(s: State) {
    s.stopped && !s.loopExit ==>
      s.eventFd > 0 || s.consumer.LoadStopped? || exists p :: Pc(s, p).NotifyStop?
  }

  ghost predicate StopIsHonoured(s: State) {
    StopIsRecorded(s) && StopIsDrained(s) && StopIsSeen(s)
  }

  // A timer that was in the table and is so no longer.
  predicate Gone(s: State, id: TimerId) {
    id < |s.installed| && id !in s.activeTimers
  }

  ghost predicate IdsInOrder(s: State) {
    s.nextTimerId == |s.timers| && forall i :: 0 <= i < |s.timers| ==> s.timers[i].item.id == i
  }

  // The table maps the id of a timer that has arrived to that very timer.
  ghost predicate TableTracked(s: State) {
    && (forall id :: id in s.activeTimers ==> id < |s.installed| && s.activeTimers[id] == s.installed[id])
    && (s.consumer.Firing? ==> s.consumer.id in s.activeTimers)
  }

  ghost predicate FiredTracked(s: State) {
    forall i :: 0 <= i < |s.fired| ==> s.fired[i] < |s.installed|
  }

  ghost predicate PassTracked(s: State) {
    s.consumer.SwapPurges? || s.consumer.RunPurges? || s.consumer.InsertTimers? ==>
      |s.installed| + |TimerBatch(s)| == s.timersAtSwap
  }

  ghost predicate TimersTracked(s: State) {
    IdsInOrder(s) && TableTracked(s) && FiredTracked(s) && PassTracked(s)
  }

  ghost predicate OneShotsOnce(s: State) {
    forall id: TimerId :: id < |s.installed| && s.installed[id].interval == 0 ==>
      && multiset(s.fired)[id] <= 1
      && (multiset(s.fired)[id] == 1 ==> Gone(s, id) || s.consumer == Firing(id))
  }

  ghost predicate PurgesEffective(s: State) {
    forall i :: 0 <= i < |s.purged| && s.purged[i].id < s.purged[i].issuedAtSwap ==> Gone(s, s.purged[i].id)
  }

  // A purge of the timer has been carried out by a pass that had already swapped in the timer.
  ghost predicate PurgedInTime(s: State, id: TimerId) {
    exists j :: 0 <= j < |s.purged| && s.purged[j].id == id && id < s.purged[j].issuedAtSwap
  }

  // A one-shot timer whose callback is over.
  predicate Spent(s: State, id: TimerId) {
    id < |s.installed| && s.installed[id].interval == 0 && id in s.fired && s.consumer != Firing(id)
  }

  // A timer leaves the table by a purge or after its only shot, and in no other way.
  ghost predicate GoneForAReason(s: State) {
    && (forall id: TimerId :: Gone(s, id) ==> PurgedInTime(s, id) || Spent(s, id))
    && (s.consumer.Firing? ==> s.consumer.id in s.fired)
  }

  // The timers' part holds while ids have not wrapped around.
  ghost predicate TimerInv(s: State) {
    TimersTracked(s) && OneShotsOnce(s) && PurgesEffective(s) && GoneForAReason(s)
  }

  ghost predicate Inv(s: State) {
    && QueuesInOrder(s)
    && NobodyForgotten(s)
    && StopIsHonoured(s)
    && (|s.timers| <= TIMER_IDS ==> TimerInv(s))
  }

  // ----- Every step keeps the invariant -----

  lemma KeepsTaskOrder(s: State, a: Step)
    requires Enabled(s, a) && TasksInOrder(s)
    ensures TasksInOrder(Apply(s, a))
  {
    match a
    case PushTask(p) =>
      assert Items(Apply(s, a).tasks) == Items(s.tasks) + [Pc(s, p).task];
    case TakeTasks =>
      assert s.executed + [] + s.pendingTasks == s.executed + s.pendingTasks + [];
    case RunTask =>
      assert s.executed + s.consumer.tasks == s.executed + [s.consumer.tasks[0]] + s.consumer.tasks[1..];
    case _ =>
  }

  lemma KeepsTimerOrder(s: State, a: Step)
    requires Enabled(s, a) && TimersInOrder(s)
    ensures TimersInOrder(Apply(s, a))
  {
    match a
    case PushTimer(p) =>
      assert Items(Apply(s, a).timers) == Items(s.timers) + [Apply(s, a).timers[|s.timers|].item];
    case TakeTimers =>
      assert s.installed + [] + s.pendingTimers == s.installed + s.pendingTimers + [];
    case InsertTimer =>
      assert s.installed + s.consumer.timers == s.installed + [s.consumer.timers[0]] + s.consumer.timers[1..];
    case _ =>
  }

  lemma KeepsPurgeOrder(s: State, a: Step)
    requires Enabled(s, a) && PurgesInOrder(s)
    ensures PurgesInOrder(Apply(s, a))
  {
    match a
    case PushPurge(p) =>
      assert Items(Apply(s, a).purges) == Items(s.purges) + [Pc(s, p).id];
    case TakePurges =>
      assert PurgedIds(s.purged) + [] + s.purgingTimers == PurgedIds(s.purged) + s.purgingTimers + [];
    case RunPurge =>
      assert PurgedIds(Apply(s, a).purged) == PurgedIds(s.purged) + [s.consumer.ids[0]];
      assert PurgedIds(s.purged) + s.consumer.ids
          == PurgedIds(s.purged) + [s.consumer.ids[0]] + s.consumer.ids[1..];
    case _ =>
  }

  // A step of the consumer.
  predicate ByConsumer(a: Step) {
    a.ReadFd? || a.CheckStopped? || a.TakeTasks? || a.RunTask? || a.EndTasks? || a.TakeTimers? || a.InsertTimer?
    || a.EndTimers? || a.TakePurges? || a.RunPurge? || a.EndPass? || a.Fire? || a.EndFire? || a.Exit?
  }

  // The step that swaps the queue.
  predicate Takes(a: Step, q: Queue) {
    match q
    case Tasks => a.TakeTasks?
    case Timers => a.TakeTimers?
    case Purges => a.TakePurges?
  }

  lemma ConsumerLeavesSeen(s: State, a: Step, q: Queue, i: int, caller: Pid)
    requires Enabled(s, a) && ByConsumer(a) && !Takes(a, q) && WillBeSeen(s, q, i, caller)
    ensures WillBeSeen(Apply(s, a), q, i, caller)
  {
    assert Apply(s, a).callers == s.callers;
  }

  lemma CallerLeavesSeen(s: State, a: Step, q: Queue, i: int, caller: Pid)
    requires Enabled(s, a) && !ByConsumer(a) && WillBeSeen(s, q, i, caller)
    ensures WillBeSeen(Apply(s, a), q, i, caller)
  {
    assert Apply(s, a).consumer == s.consumer;
  }

  // Who is to look at an entry is not changed by any step but the swap of its queue.
  lemma StaysSeen(s: State, a: Step, q: Queue, i: int, caller: Pid)
    requires Enabled(s, a) && !Takes(a, q) && WillBeSeen(s, q, i, caller)
    ensures WillBeSeen(Apply(s, a), q, i, caller)
  {
    if ByConsumer(a) {
      ConsumerLeavesSeen(s, a, q, i, caller);
    } else {
      CallerLeavesSeen(s, a, q, i, caller);
    }
  }

  lemma KeepsTasksSeen(s: State, a: Step)
    requires Enabled(s, a) && QueuesInOrder(s) && TasksSeen(s)
    ensures TasksSeen(Apply(s, a))
  {
    var t := Apply(s, a);
    QueueLengths(s);
    TasksQueueGrows(s, a);
    forall i | |t.tasks| - |t.pendingTasks| <= i < |t.tasks| && i >= 0
      ensures WillBeSeen(t, Tasks, i, t.tasks[i].caller)
    {
      if i < |s.tasks| {
        assert WillBeSeen(s, Tasks, i, s.tasks[i].caller);
        StaysSeen(s, a, Tasks, i, s.tasks[i].caller);
      }
    }
  }

  lemma TasksQueueGrows(s: State, a: Step)
    requires Enabled(s, a)
    ensures var t := Apply(s, a);
            && s.tasks <= t.tasks && (Takes(a, Tasks) ==> t.pendingTasks == [])
            && (!Takes(a, Tasks) ==> |t.pendingTasks| - |s.pendingTasks| == |t.tasks| - |s.tasks|)
            && (|t.tasks| > |s.tasks| ==>
                  |t.tasks| == |s.tasks| + 1
                  && Pc(t, t.tasks[|s.tasks|].caller) == Notify(Tasks, |s.tasks|))
  {
  }

  lemma KeepsTimersSeen(s: State, a: Step)
    requires Enabled(s, a) && QueuesInOrder(s) && TimersSeen(s)
    ensures TimersSeen(Apply(s, a))
  {
    var t := Apply(s, a);
    QueueLengths(s);
    TimersQueueGrows(s, a);
    forall i | |t.timers| - |t.pendingTimers| <= i < |t.timers| && i >= 0
      ensures WillBeSeen(t, Timers, i, t.timers[i].caller)
    {
      if i < |s.timers| {
        assert WillBeSeen(s, Timers, i, s.timers[i].caller);
        StaysSeen(s, a, Timers, i, s.timers[i].caller);
      }
    }
  }

  lemma TimersQueueGrows(s: State, a: Step)
    requires Enabled(s, a)
    ensures var t := Apply(s, a);
            && s.timers <= t.timers && (Takes(a, Timers) ==> t.pendingTimers == [])
            && (!Takes(a, Timers) ==> |t.pendingTimers| - |s.pendingTimers| == |t.timers| - |s.timers|)
            && (|t.timers| > |s.timers| ==>
                  |t.timers| == |s.timers| + 1
                  && Pc(t, t.timers[|s.timers|].caller) == Notify(Timers, |s.timers|))
  {
  }

  lemma KeepsPurgesSeen(s: State, a: Step)
    requires Enabled(s, a) && QueuesInOrder(s) && PurgesSeen(s)
    ensures PurgesSeen(Apply(s, a))
  {
    var t := Apply(s, a);
    QueueLengths(s);
    PurgesQueueGrows(s, a);
    forall i | |t.purges| - |t.purgingTimers| <= i < |t.purges| && i >= 0
      ensures WillBeSeen(t, Purges, i, t.purges[i].caller)
    {
      if i < |s.purges| {
        assert WillBeSeen(s, Purges, i, s.purges[i].caller);
        StaysSeen(s, a, Purges, i, s.purges[i].caller);
      }
    }
  }

  lemma PurgesQueueGrows(s: State, a: Step)
    requires Enabled(s, a)
    ensures var t := Apply(s, a);
            && s.purges <= t.purges && (Takes(a, Purges) ==> t.purgingTimers == [])
            && (!Takes(a, Purges) ==> |t.purgingTimers| - |s.purgingTimers| == |t.purges| - |s.purges|)
            && (|t.purges| > |s.purges| ==>
                  |t.purges| == |s.purges| + 1
                  && Pc(t, t.purges[|s.purges|].caller) == Notify(Purges, |s.purges|))
  {
  }

  lemma QueueLengths(s: State)
    requires QueuesInOrder(s)
    ensures |s.executed| + |TaskBatch(s)| + |s.pendingTasks| == |s.tasks|
    ensures |s.installed| + |TimerBatch(s)| + |s.pendingTimers| == |s.timers|
    ensures |s.purged| + |PurgeBatch(s)| + |s.purgingTimers| == |s.purges|
  {
    assert |Items(s.tasks)| == |s.tasks| && |Items(s.timers)| == |s.timers| && |Items(s.purges)| == |s.purges|;
  }

  lemma KeepsStop(s: State, a: Step)
    requires Enabled(s, a) && QueuesInOrder(s) && StopIsHonoured(s)
    ensures StopIsHonoured(Apply(s, a))
  {
    KeepsStopRecorded(s, a);
    KeepsStopDrained(s, a);
    KeepsStopSeen(s, a);
  }

  lemma KeepsStopSeen(s: State, a: Step)
    requires Enabled(s, a) && StopIsSeen(s)
    ensures StopIsSeen(Apply(s, a))
  {
    var t := Apply(s, a);
    if ByConsumer(a) {
      ConsumerKeepsStopSeen(s, a);
    } else if a.StoreStop? {
      assert Pc(t, a.p).NotifyStop?;
    } else if s.stopped && !s.loopExit && s.eventFd == 0 && !s.consumer.LoadStopped? {
      var p :| Pc(s, p).NotifyStop?;
      StopperMovesOn(s, a, p);
    } else {
      CallerLeavesWaking(s, a);
    }
  }

  lemma ConsumerKeepsStopSeen(s: State, a: Step)
    requires Enabled(s, a) && ByConsumer(a) && StopIsSeen(s)
    ensures StopIsSeen(Apply(s, a))
  {
    var t := Apply(s, a);
    assert t.callers == s.callers && t.stopped == s.stopped;
    if p :| Pc(s, p).NotifyStop? {
      assert Pc(t, p).NotifyStop?;
    }
  }

  // A caller at the end of its stop stays there until it writes the eventfd.
  lemma StopperMovesOn(s: State, a: Step, p: Pid)
    requires Enabled(s, a) && Pc(s, p).NotifyStop?
    ensures Pc(Apply(s, a), p).NotifyStop? || Apply(s, a).eventFd > 0
  {
  }

  lemma CallerLeavesWaking(s: State, a: Step)
    requires Enabled(s, a) && !ByConsumer(a) && !a.StoreStop?
    ensures var t := Apply(s, a);
            t.eventFd >= s.eventFd && t.consumer == s.consumer && t.loopExit == s.loopExit && t.stopped == s.stopped
  {
  }

  lemma KeepsStopRecorded(s: State, a: Step)
    requires Enabled(s, a) && StopIsRecorded(s)
    ensures StopIsRecorded(Apply(s, a))
  {
    if ByConsumer(a) {
      ConsumerKeepsStopRecorded(s, a);
    } else {
      CallerKeepsStopRecorded(s, a);
    }
  }

  lemma ConsumerKeepsStopRecorded(s: State, a: Step)
    requires Enabled(s, a) && ByConsumer(a) && StopIsRecorded(s)
    ensures StopIsRecorded(Apply(s, a))
  {
  }

  lemma CallerKeepsStopRecorded(s: State, a: Step)
    requires Enabled(s, a) && !ByConsumer(a) && StopIsRecorded(s)
    ensures StopIsRecorded(Apply(s, a))
  {
  }

  lemma KeepsStopDrained(s: State, a: Step)
    requires Enabled(s, a) && QueuesInOrder(s) && StopIsHonoured(s)
    ensures StopIsDrained(Apply(s, a))
  {
    QueueLengths(s);
  }

  lemma BatchIds(s: State, i: nat)
    requires QueuesInOrder(s) && TimersTracked(s) && i < |s.installed| + |TimerBatch(s)|
    ensures i < |s.installed| ==> s.installed[i] == s.timers[i].item
    ensures i >= |s.installed| ==> TimerBatch(s)[i - |s.installed|] == s.timers[i].item
    ensures s.timers[i].item.id == i
  {
    QueueLengths(s);
    var all := s.installed + TimerBatch(s) + s.pendingTimers;
    assert all[i] == Items(s.timers)[i];
  }

  lemma KeepsIds(s: State, a: Step)
    requires Enabled(s, a) && IdsInOrder(s) && |Apply(s, a).timers| <= TIMER_IDS
    ensures IdsInOrder(Apply(s, a))
  {
  }

  lemma KeepsTable(s: State, a: Step)
    requires Enabled(s, a) && QueuesInOrder(s) && TimersTracked(s)
    ensures TableTracked(Apply(s, a))
  {
    if a.InsertTimer? {
      BatchIds(s, |s.installed|);
      InsertKeepsTable(s);
    } else {
      OthersKeepTable(s, a);
    }
  }

  lemma InsertKeepsTable(s: State)
    requires Enabled(s, InsertTimer) && TableTracked(s) && s.consumer.timers[0].id == |s.installed|
    ensures TableTracked(Apply(s, InsertTimer))
  {
  }

  lemma OthersKeepTable(s: State, a: Step)
    requires Enabled(s, a) && !a.InsertTimer? && TableTracked(s)
    ensures TableTracked(Apply(s, a))
  {
    var t := Apply(s, a);
    TableShrinks(s, a);
    assert t.consumer.Firing? ==> t.consumer == s.consumer || (a.Fire? && t.consumer == Firing(a.id));
  }

  lemma TableShrinks(s: State, a: Step)
    requires Enabled(s, a) && !a.InsertTimer?
    ensures var t := Apply(s, a);
            t.installed == s.installed
            && (forall id :: id in t.activeTimers ==> id in s.activeTimers && t.activeTimers[id] == s.activeTimers[id])
            && (s.consumer.Firing? && t.consumer.Firing? ==> t.activeTimers == s.activeTimers)
  {
    if ByConsumer(a) {
      ConsumerShrinksTable(s, a);
    } else {
      CallerLeavesConsumer(s, a);
    }
  }

  // A caller's step touches nothing of the consumer's.
  lemma CallerLeavesConsumer(s: State, a: Step)
    requires Enabled(s, a) && !ByConsumer(a)
    ensures var t := Apply(s, a);
            && t.consumer == s.consumer && t.activeTimers == s.activeTimers && t.loopExit == s.loopExit
            && t.executed == s.executed && t.installed == s.installed && t.fired == s.fired
            && t.purged == s.purged && t.timersAtSwap == s.timersAtSwap
  {
  }

  lemma ConsumerShrinksTable(s: State, a: Step)
    requires Enabled(s, a) && ByConsumer(a) && !a.InsertTimer?
    ensures var t := Apply(s, a);
            t.installed == s.installed
            && (forall id :: id in t.activeTimers ==> id in s.activeTimers && t.activeTimers[id] == s.activeTimers[id])
            && (s.consumer.Firing? && t.consumer.Firing? ==> t.activeTimers == s.activeTimers)
  {
  }

  lemma KeepsFired(s: State, a: Step)
    requires Enabled(s, a) && TableTracked(s) && FiredTracked(s)
    ensures FiredTracked(Apply(s, a))
  {
  }

  lemma KeepsPass(s: State, a: Step)
    requires Enabled(s, a) && QueuesInOrder(s) && PassTracked(s)
    ensures PassTracked(Apply(s, a))
  {
    QueueLengths(s);
  }

  // Once gone, always gone: a new timer never takes an old id.
  lemma GoneStays(s: State, a: Step, id: TimerId)
    requires Enabled(s, a) && QueuesInOrder(s) && TimersTracked(s) && Gone(s, id)
    ensures Gone(Apply(s, a), id)
  {
    if a.InsertTimer? {
      BatchIds(s, |s.installed|);
    }
  }

  lemma KeepsOneShots(s: State, a: Step)
    requires Enabled(s, a) && QueuesInOrder(s) && TimersTracked(s) && OneShotsOnce(s)
    ensures OneShotsOnce(Apply(s, a))
  {
    var t := Apply(s, a);
    forall id: TimerId | id < |t.installed| && t.installed[id].interval == 0
      ensures multiset(t.fired)[id] <= 1
      ensures multiset(t.fired)[id] == 1 ==> Gone(t, id) || t.consumer == Firing(id)
    {
      OneShotStep(s, a, id);
    }
  }

  lemma OneShotStep(s: State, a: Step, id: TimerId)
    requires Enabled(s, a) && QueuesInOrder(s) && TimersTracked(s) && OneShotsOnce(s)
    requires id < |Apply(s, a).installed| && Apply(s, a).installed[id].interval == 0
    ensures multiset(Apply(s, a).fired)[id] <= 1
    ensures multiset(Apply(s, a).fired)[id] == 1 ==> Gone(Apply(s, a), id) || Apply(s, a).consumer == Firing(id)
  {
    if id >= |s.installed| {
      ArrivalFiresNothing(s, a);
      NeverFired(s, id);
    } else if Gone(s, id) {
      GoneStays(s, a, id);
      FiresOnlyFromTable(s, a, id);
    } else {
      OneShotInTable(s, a, id);
    }
  }

  lemma ArrivalFiresNothing(s: State, a: Step)
    requires Enabled(s, a) && |Apply(s, a).installed| > |s.installed|
    ensures Apply(s, a).fired == s.fired
  {
  }

  // A firing adds one to the count of a timer in the table; no other step touches the count.
  lemma FiresOnlyFromTable(s: State, a: Step, id: TimerId)
    requires Enabled(s, a)
    ensures multiset(Apply(s, a).fired)[id] == multiset(s.fired)[id] + if a == Fire(id) then 1 else 0
    ensures a == Fire(id) ==> id in s.activeTimers && s.consumer.Polling? && Apply(s, a).consumer == Firing(id)
  {
    if a.Fire? {
      assert multiset(s.fired + [a.id]) == multiset(s.fired) + multiset{a.id};
    }
  }

  lemma OneShotInTable(s: State, a: Step, id: TimerId)
    requires Enabled(s, a) && id in s.activeTimers && s.activeTimers[id].interval == 0
    requires multiset(s.fired)[id] <= 1 && (multiset(s.fired)[id] == 1 ==> s.consumer == Firing(id))
    ensures multiset(Apply(s, a).fired)[id] <= 1
    ensures multiset(Apply(s, a).fired)[id] == 1
            ==> id !in Apply(s, a).activeTimers || Apply(s, a).consumer == Firing(id)
  {
    FiresOnlyFromTable(s, a, id);
    if s.consumer == Firing(id) {
      assert Apply(s, a).consumer == s.consumer || a.EndFire?;
    }
  }

  lemma NeverFired(s: State, id: TimerId)
    requires TimersTracked(s) && id >= |s.installed|
    ensures multiset(s.fired)[id] == 0
  {
    assert id !in s.fired;
    assert id !in multiset(s.fired);
  }

  lemma KeepsPurges(s: State, a: Step)
    requires Enabled(s, a) && QueuesInOrder(s) && TimersTracked(s) && PurgesEffective(s)
    ensures PurgesEffective(Apply(s, a))
  {
    var t := Apply(s, a);
    forall i | 0 <= i < |t.purged| && t.purged[i].id < t.purged[i].issuedAtSwap ensures Gone(t, t.purged[i].id) {
      if i < |s.purged| {
        GoneStays(s, a, s.purged[i].id);
      }
    }
  }

  // A step that takes a timer out of the table is its purge or the end of its only shot.
  lemma LeavesByPurgeOrShot(s: State, a: Step, id: TimerId)
    requires Enabled(s, a) && id in s.activeTimers && id !in Apply(s, a).activeTimers
    ensures (a.RunPurge? && s.consumer.ids[0] == id)
            || (a.EndFire? && s.consumer.id == id && s.activeTimers[id].interval == 0)
  {
  }

  lemma ArrivesInTable(s: State, a: Step, id: TimerId)
    requires Enabled(s, a) && QueuesInOrder(s) && TimersTracked(s)
    requires |s.installed| <= id < |Apply(s, a).installed|
    ensures id in Apply(s, a).activeTimers
  {
    assert a.InsertTimer?;
    BatchIds(s, |s.installed|);
  }

  lemma ReasonStays(s: State, a: Step, id: TimerId)
    requires Enabled(s, a) && Gone(s, id) && (PurgedInTime(s, id) || Spent(s, id))
    ensures PurgedInTime(Apply(s, a), id) || Spent(Apply(s, a), id)
  {
    var t := Apply(s, a);
    assert s.purged <= t.purged && s.fired <= t.fired && s.installed <= t.installed by {
      HistoriesGrow(s, a);
    }
    if PurgedInTime(s, id) {
      var j :| 0 <= j < |s.purged| && s.purged[j].id == id && id < s.purged[j].issuedAtSwap;
      assert t.purged[j] == s.purged[j];
    } else {
      assert t.consumer == Firing(id) ==> a.Fire? || t.consumer == s.consumer;
    }
  }

  lemma HistoriesGrow(s: State, a: Step)
    requires Enabled(s, a)
    ensures s.purged <= Apply(s, a).purged && s.fired <= Apply(s, a).fired && s.installed <= Apply(s, a).installed
  {
  }

  lemma PurgeIsAReason(s: State)
    requires Enabled(s, RunPurge) && PassTracked(s) && s.consumer.ids[0] < |s.installed|
    ensures PurgedInTime(Apply(s, RunPurge), s.consumer.ids[0])
  {
    var t := Apply(s, RunPurge);
    assert t.purged[|s.purged|] == PurgeDone(s.consumer.ids[0], s.timersAtSwap);
  }

  lemma ReasonStep(s: State, a: Step, id: TimerId)
    requires Enabled(s, a) && QueuesInOrder(s) && TimersTracked(s) && GoneForAReason(s)
    requires Gone(Apply(s, a), id)
    ensures PurgedInTime(Apply(s, a), id) || Spent(Apply(s, a), id)
  {
    if Gone(s, id) {
      ReasonStays(s, a, id);
    } else if id >= |s.installed| {
      ArrivesInTable(s, a, id);
    } else {
      LeavesByPurgeOrShot(s, a, id);
      if a.RunPurge? {
        PurgeIsAReason(s);
      }
    }
  }

  lemma KeepsReasons(s: State, a: Step)
    requires Enabled(s, a) && QueuesInOrder(s) && TimersTracked(s) && GoneForAReason(s)
    ensures GoneForAReason(Apply(s, a))
  {
    var t := Apply(s, a);
    forall id: TimerId | Gone(t, id) ensures PurgedInTime(t, id) || Spent(t, id) {
      ReasonStep(s, a, id);
    }
    FiringIsFired(s, a);
  }

  lemma FiringIsFired(s: State, a: Step)
    requires Enabled(s, a) && (s.consumer.Firing? ==> s.consumer.id in s.fired)
    ensures Apply(s, a).consumer.Firing? ==> Apply(s, a).consumer.id in Apply(s, a).fired
  {
    HistoriesGrow(s, a);
    var t := Apply(s, a);
    if t.consumer.Firing? {
      assert a.Fire? || t.consumer == s.consumer;
    }
  }

  lemma StepKeepsInv(s: State, a: Step)
    requires Enabled(s, a) && Inv(s)
    ensures Inv(Apply(s, a))
  {
    KeepsTaskOrder(s, a);
    KeepsTimerOrder(s, a);
    KeepsPurgeOrder(s, a);
    KeepsTasksSeen(s, a);
    KeepsTimersSeen(s, a);
    KeepsPurgesSeen(s, a);
    KeepsStop(s, a);
    if |Apply(s, a).timers| <= TIMER_IDS {
      KeepsIds(s, a);
      KeepsTable(s, a);
      KeepsFired(s, a);
      KeepsPass(s, a);
      KeepsOneShots(s, a);
      KeepsPurges(s, a);
      KeepsReasons(s, a);
    }
  }

  lemma {:induction false} RunKeepsInv(s: State, steps: seq<Step>)
    requires Inv(s) && CanRun(s, steps)
    ensures Inv(Run(s, steps))
    decreases |steps|
  {
    if steps != [] {
      StepKeepsInv(s, steps[0]);
      RunKeepsInv(Apply(s, steps[0]), steps[1..]);
    }
  }

  lemma InitialInv()
    ensures Inv(INITIAL)
  {
  }
}
