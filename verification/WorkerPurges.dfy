// The fate of a purge, known from the moment purgeTimerTask pushes it.
module WorkerPurges {
  import opened Worker
  import opened WorkerTheorems

  // The pass under way has swapped the timers but not yet the purges.
  predicate BetweenSwaps(c: ConsumerPc) {
    c.InsertTimers? || c.SwapPurges?
  }

  // A purge pushed now will be carried out by a pass that misses the timer.
  predicate ComesTooSoon(s: State, id: TimerId) {
    BetweenSwaps(s.consumer) && id >= s.timersAtSwap
  }

  // Entry k of the purges is for an issued timer, and lost says whether its pass misses that timer: wherever
  // the entry is, in the queue, in the batch or carried out, it can be read off there.
  ghost predicate Fate(s: State, k: nat, id: TimerId, lost: bool) {
    && k < |s.purges| && s.purges[k].item == id && id < |s.timers|
    && (k < |s.purged| ==> s.purged[k].id == id && lost == (s.purged[k].issuedAtSwap <= id))
    && (|s.purged| <= k < |s.purged| + |PurgeBatch(s)| ==> lost == (s.timersAtSwap <= id))
    && (|s.purged| + |PurgeBatch(s)| <= k ==> lost == ComesTooSoon(s, id))
  }

  // The push decides it.
  lemma PushDecides(s: State, p: Pid)
    requires Enabled(s, PushPurge(p)) && QueuesInOrder(s) && Pc(s, p).id < |s.timers|
    ensures Fate(Apply(s, PushPurge(p)), |s.purges|, Pc(s, p).id, ComesTooSoon(s, Pc(s, p).id))
  {
    QueueLengths(s);
  }

  lemma ConsumerAndQueue(s: State, a: Step, k: nat, id: TimerId, lost: bool)
    requires Enabled(s, a) && ByConsumer(a) && Fate(s, k, id, lost) && |s.purged| + |PurgeBatch(s)| <= k
    requires |s.purged| + |PurgeBatch(s)| + |s.purgingTimers| == |s.purges|
    ensures Fate(Apply(s, a), k, id, lost)
  {
    assert Apply(s, a).purges == s.purges && Apply(s, a).timers == s.timers;
  }

  lemma BatchEntry(s: State, k: nat)
    requires QueuesInOrder(s) && |s.purged| <= k < |s.purged| + |PurgeBatch(s)|
    ensures k < |s.purges| && PurgeBatch(s)[k - |s.purged|] == s.purges[k].item
  {
    QueueLengths(s);
    assert (PurgedIds(s.purged) + PurgeBatch(s) + s.purgingTimers)[k] == Items(s.purges)[k];
  }

  lemma FateCarriedOut(s: State, a: Step, k: nat, id: TimerId, lost: bool)
    requires Enabled(s, a) && Fate(s, k, id, lost) && k < |s.purged|
    ensures Fate(Apply(s, a), k, id, lost)
  {
    StepExtends(s, a);
    PurgesGrow(s, a);
  }

  lemma PurgesGrow(s: State, a: Step)
    requires Enabled(s, a)
    ensures s.purges <= Apply(s, a).purges && s.purged <= Apply(s, a).purged
  {
  }

  lemma ConsumerAndBatch(s: State, a: Step, k: nat, id: TimerId, lost: bool)
    requires Enabled(s, a) && ByConsumer(a) && Fate(s, k, id, lost)
    requires |s.purged| <= k < |s.purged| + |PurgeBatch(s)| && PurgeBatch(s)[k - |s.purged|] == id
    ensures Fate(Apply(s, a), k, id, lost)
  {
    assert s.consumer.RunPurges? && a == RunPurge;
  }

  lemma CallerAndFate(s: State, a: Step, k: nat, id: TimerId, lost: bool)
    requires Enabled(s, a) && !ByConsumer(a) && Fate(s, k, id, lost)
    ensures Fate(Apply(s, a), k, id, lost)
  {
    StepExtends(s, a);
    PurgesGrow(s, a);
    CallerLeavesConsumer(s, a);
  }

  // No step changes it.
  lemma StepKeepsFate(s: State, a: Step, k: nat, id: TimerId, lost: bool)
    requires Enabled(s, a) && QueuesInOrder(s) && Fate(s, k, id, lost)
    ensures Fate(Apply(s, a), k, id, lost)
  {
    QueueLengths(s);
    if k < |s.purged| {
      FateCarriedOut(s, a, k, id, lost);
    } else if !ByConsumer(a) {
      CallerAndFate(s, a, k, id, lost);
    } else if k < |s.purged| + |PurgeBatch(s)| {
      BatchEntry(s, k);
      ConsumerAndBatch(s, a, k, id, lost);
    } else {
      ConsumerAndQueue(s, a, k, id, lost);
    }
  }

  lemma {:induction false} RunKeepsFate(s: State, steps: seq<Step>, k: nat, id: TimerId, lost: bool)
    requires Inv(s) && CanRun(s, steps) && Fate(s, k, id, lost)
    ensures Fate(Run(s, steps), k, id, lost)
    decreases |steps|
  {
    if steps != [] {
      StepKeepsInv(s, steps[0]);
      StepKeepsFate(s, steps[0], k, id, lost);
      RunKeepsFate(Apply(s, steps[0]), steps[1..], k, id, lost);
    }
  }

  // Of the purges carried out so far, one other than entry k removed the timer.
  ghost predicate PurgedByAnother(s: State, id: TimerId, k: nat) {
    exists j :: 0 <= j < |s.purged| && j != k && s.purged[j].id == id && id < s.purged[j].issuedAtSwap
  }

  // What has become of entry k once it has been carried out: its pass missed the timer or not, and accordingly
  // an arrived timer is gone only for another reason, or is gone.
  ghost predicate Outcome(t: State, k: nat, id: TimerId, lost: bool) {
    && k < |t.purged| && t.purged[k].id == id
    && (t.purged[k].issuedAtSwap <= id <==> lost)
    && (!lost ==> Gone(t, id))
    && (lost && id < |t.installed| ==> (id in t.activeTimers <==> !PurgedByAnother(t, id, k) && !Spent(t, id)))
  }

  lemma FateDecides(t: State, k: nat, id: TimerId, lost: bool)
    requires Reachable(t) && |t.timers| <= TIMER_IDS && Fate(t, k, id, lost) && k < |t.purged|
    ensures Outcome(t, k, id, lost)
  {
    GoneExactly(t, id);
    if lost {
      assert PurgedInTime(t, id) <==> PurgedByAnother(t, id, k);
    } else {
      PurgesTakeEffect(t, k);
    }
  }

  lemma PushIsReachable(s: State, p: Pid)
    requires Reachable(s) && Enabled(s, PushPurge(p))
    ensures Reachable(Apply(s, PushPurge(p)))
  {
    RunOne(s, PushPurge(p));
    ReachableExtends(s, [PushPurge(p)]);
  }

  // A purge of an issued timer is lost exactly when it is pushed between the two swaps of a pass whose first
  // swap came before the timer was issued: so it is for every run from the push on, as soon as the entry has
  // been carried out.
  lemma PurgeExactly(s: State, p: Pid, rest: seq<Step>)
    requires Reachable(s) && Enabled(s, PushPurge(p)) && Pc(s, p).id < |s.timers|
    requires CanRun(Apply(s, PushPurge(p)), rest)
    ensures var t := Run(Apply(s, PushPurge(p)), rest);
            |t.timers| <= TIMER_IDS && |s.purges| < |t.purged| ==>
              Outcome(t, |s.purges|, Pc(s, p).id, ComesTooSoon(s, Pc(s, p).id))
  {
    var u := Apply(s, PushPurge(p));
    ReachableInv(s);
    PushDecides(s, p);
    PushIsReachable(s, p);
    ReachableInv(u);
    RunKeepsFate(u, rest, |s.purges|, Pc(s, p).id, ComesTooSoon(s, Pc(s, p).id));
    ReachableExtends(u, rest);
    var t := Run(u, rest);
    if |t.timers| <= TIMER_IDS && |s.purges| < |t.purged| {
      FateDecides(t, |s.purges|, Pc(s, p).id, ComesTooSoon(s, Pc(s, p).id));
    }
  }
}
