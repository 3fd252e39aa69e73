// The worker comes to rest: once threads stop making calls and no timer fires, every schedule is finite and
// ends with everything carried out, or with the loop exited.
module WorkerProgress {
  import opened Worker
  import opened WorkerTheorems

  // Every step but the start of a new call and the firing of a timer.
  predicate CarriesOn(a: Step) {
    !(a.CallAddTask? || a.CallAddTimer? || a.CallPurge? || a.CallStop? || a.Fire?)
  }

  // Steps a call still has to make, at most.
  function StepsLeft(pc: CallerPc): nat {
    match pc
    case Idle => 0
    case Notify(_, _) => 1
    case NotifyStop => 1
    case StopLoad => 3
    case _ => 2
  }

  ghost function TotalLeft(keys: set<Pid>, callers: map<Pid, CallerPc>): nat
    requires keys <= callers.Keys
  {
    if keys == {} then 0 else
      var p :| p in keys;
      StepsLeft(callers[p]) + TotalLeft(keys - {p}, callers)
  }

  lemma {:induction false} TotalOf(keys: set<Pid>, callers: map<Pid, CallerPc>, p: Pid)
    requires keys <= callers.Keys && p in keys
    ensures TotalLeft(keys, callers) == StepsLeft(callers[p]) + TotalLeft(keys - {p}, callers)
  {
    var q :| q in keys && TotalLeft(keys, callers) == StepsLeft(callers[q]) + TotalLeft(keys - {q}, callers);
    if p != q {
      TotalOf(keys - {q}, callers, p);
      TotalOf(keys - {p}, callers, q);
      assert keys - {q} - {p} == keys - {p} - {q};
    }
  }

  lemma {:induction false} TotalSame(keys: set<Pid>, a: map<Pid, CallerPc>, b: map<Pid, CallerPc>)
    requires keys <= a.Keys && keys <= b.Keys && forall p :: p in keys ==> a[p] == b[p]
    ensures TotalLeft(keys, a) == TotalLeft(keys, b)
  {
    if keys != {} {
      var p :| p in keys;
      TotalSame(keys - {p}, a, b);
      TotalOf(keys, a, p);
      TotalOf(keys, b, p);
    }
  }

  ghost function CallsLeft(s: State): nat {
    TotalLeft(s.callers.Keys, s.callers)
  }

  lemma CallAdvances(s: State, p: Pid, pc: CallerPc)
    requires p in s.callers && StepsLeft(pc) < StepsLeft(s.callers[p])
    ensures CallsLeft(Set(s, p, pc)) < CallsLeft(s)
  {
    var c := s.callers[p := pc];
    assert c.Keys == s.callers.Keys;
    TotalOf(s.callers.Keys, s.callers, p);
    TotalOf(c.Keys, c, p);
    TotalSame(s.callers.Keys - {p}, s.callers, c);
  }

  function Readable(s: State): nat {
    if s.eventFd > 0 then 1 else 0
  }

  // How far the consumer is from its loop.
  function Stage(c: ConsumerPc): nat {
    match c
    case Exited => 0
    case Polling => 1
    case Firing(_) => 2
    case RunPurges(_) => 3
    case SwapPurges => 4
    case InsertTimers(_) => 5
    case SwapTimers => 6
    case RunTasks(_) => 7
    case SwapTasks => 8
    case LoadStopped => 9
  }

  function Batch(c: ConsumerPc): nat {
    match c
    case RunTasks(ts) => |ts|
    case InsertTimers(ts) => |ts|
    case RunPurges(ids) => |ids|
    case _ => 0
  }

  // Lexicographic order on (calls left, eventfd readable, stage, batch).
  ghost predicate Closer(t: State, s: State) {
    || CallsLeft(t) < CallsLeft(s)
    || (CallsLeft(t) == CallsLeft(s) && Readable(t) < Readable(s))
    || (CallsLeft(t) == CallsLeft(s) && Readable(t) == Readable(s) && Stage(t.consumer) < Stage(s.consumer))
    || (CallsLeft(t) == CallsLeft(s) && Readable(t) == Readable(s) && Stage(t.consumer) == Stage(s.consumer)
        && Batch(t.consumer) < Batch(s.consumer))
  }

  function CallerOf(a: Step): Option<Pid> {
    match a
    case PushTask(p) => Some(p)
    case PushTimer(p) => Some(p)
    case PushPurge(p) => Some(p)
    case LoadStop(p) => Some(p)
    case StoreStop(p) => Some(p)
    case WriteFd(p) => Some(p)
    case _ => None
  }

  lemma CallerStep(s: State, a: Step)
    requires Enabled(s, a) && CallerOf(a).Some?
    ensures CallsLeft(Apply(s, a)) < CallsLeft(s)
  {
    var p := CallerOf(a).value;
    CallAdvances(s, p, Pc(Apply(s, a), p));
    assert Apply(s, a).callers == Set(s, p, Pc(Apply(s, a), p)).callers;
  }

  // Every such step brings the worker strictly closer to rest, so there is no infinite schedule of them.
  lemma CarryingOnGetsCloser(s: State, a: Step)
    requires Enabled(s, a) && CarriesOn(a)
    ensures Closer(Apply(s, a), s)
  {
    if CallerOf(a).Some? {
      CallerStep(s, a);
    } else {
      assert Apply(s, a).callers == s.callers;
    }
  }

  ghost predicate AtRest(s: State) {
    && (forall p :: Pc(s, p).Idle?)
    && (s.consumer.Exited? || (s.consumer.Polling? && s.eventFd == 0))
  }

  // Away from rest there is always a step to carry on with.
  lemma NextStep(s: State) returns (a: Step)
    requires Reachable(s) && |s.timers| <= TIMER_IDS && !AtRest(s)
    ensures Enabled(s, a) && CarriesOn(a)
  {
    if p :| !Pc(s, p).Idle? {
      a := match Pc(s, p)
           case AddTask(_) => PushTask(p)
           case AddTimer(_, _) => PushTimer(p)
           case PurgeTimer(_) => PushPurge(p)
           case StopLoad => LoadStop(p)
           case StopStore => StoreStop(p)
           case _ => WriteFd(p);
    } else {
      ConsumerNeverStuck(s);
      a := ConsumerStep(s.consumer);
    }
  }

  // An id is only issued by a call, so the bound on issued ids survives if the calls still under way do not
  // exceed it.
  lemma TimersBound(s: State, a: Step)
    requires Enabled(s, a) && CarriesOn(a)
    ensures |Apply(s, a).timers| + CallsLeft(Apply(s, a)) <= |s.timers| + CallsLeft(s)
  {
    if CallerOf(a).Some? {
      CallerStep(s, a);
    } else {
      assert Apply(s, a).callers == s.callers;
    }
  }

  // From every reachable state the worker can be carried on to rest without a new call; there either the loop
  // has exited, or everything submitted has been carried out in order.
  lemma {:induction false} SettlesDown(s: State) returns (steps: seq<Step>)
    requires Reachable(s) && |s.timers| + CallsLeft(s) <= TIMER_IDS
    ensures CanRun(s, steps) && AtRest(Run(s, steps))
    ensures forall i :: 0 <= i < |steps| ==> CarriesOn(steps[i])
    ensures var t := Run(s, steps);
            t.consumer.Exited? || (t.executed == Items(t.tasks) && t.installed == Items(t.timers)
                                   && PurgedIds(t.purged) == Items(t.purges))
    decreases CallsLeft(s), Readable(s), Stage(s.consumer), Batch(s.consumer)
  {
    if AtRest(s) {
      steps := [];
      if s.consumer.Polling? {
        QuiescentMeansDone(s);
      }
    } else {
      var a := NextStep(s);
      CarryingOnGetsCloser(s, a);
      TimersBound(s, a);
      RunOne(s, a);
      ReachableExtends(s, [a]);
      var rest := SettlesDown(Apply(s, a));
      steps := [a] + rest;
      RunConcat(s, [a], rest);
    }
  }
}
