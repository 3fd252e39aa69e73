// The pool (src/thread/GeneralThreadPool.h, GeneralThreadPool.cpp): tasks go round the workers, ids of timers
// carry the worker in their high bits, and starting, stopping and waiting stop at the first worker that fails.

module ThreadPool {
  import opened Worker
  import WorkerTheorems

  const WORKER_IDS: nat := 0x1_0000

  // ----- Ids -----

  // The worker in the high bits and its own id in the low ones, in 64 bits. The id fits below the shift, so
  // that the bitwise or is a sum.
  function Pack(idx: nat, id: TimerId): nat
    requires id < TIMER_IDS
  {
    idx * TIMER_IDS % UINT64 + id
  }

  function WorkerOf(packed: nat): nat {
    packed / TIMER_IDS
  }

  function IdOf(packed: nat): TimerId {
    packed % TIMER_IDS
  }

  // A packed id leads back to its own id, and to its worker exactly when the worker's number has 16 bits.
  lemma IdFindsItsWorker(idx: nat, id: TimerId)
    requires id < TIMER_IDS
    ensures Pack(idx, id) == idx % 0x1_0000 * 0x1_0000_0000_0000 + id
    ensures IdOf(Pack(idx, id)) == id
    ensures WorkerOf(Pack(idx, id)) == idx <==> idx < 0x1_0000
  {
    PackIsSum(idx, id);
    Unpacked(idx % WORKER_IDS, id);
  }

  lemma PackIsSum(idx: nat, id: TimerId)
    requires id < TIMER_IDS
    ensures Pack(idx, id) == idx % WORKER_IDS * TIMER_IDS + id
  {
    var high, low := idx / WORKER_IDS, idx % WORKER_IDS;
    assert idx == high * WORKER_IDS + low;
    assert idx * TIMER_IDS == high * UINT64 + low * TIMER_IDS;
    assert low * TIMER_IDS < UINT64;
  }

  lemma Unpacked(low: nat, id: TimerId)
    requires id < TIMER_IDS
    ensures WorkerOf(low * TIMER_IDS + id) == low && IdOf(low * TIMER_IDS + id) == id
  {
  }

  // ----- Shares -----

  // The worker that a submission goes to when the counter stands at c.
  function Turn(c: nat, n: nat): (w: nat)
    requires n > 0
    ensures w < n
  {
    c % n
  }

  // How many of k submissions from c on go to worker w of n. The counter has 64 bits.
  function Share(c: nat, k: nat, n: nat, w: nat): nat
    requires n > 0
  {
    if k == 0 then 0 else Share(c, k - 1, n, w) + if Turn((c + k - 1) % UINT64, n) == w then 1 else 0
  }

  lemma BigMultiple(n: int, q: int)
    requires n > 0 && q != 0
    ensures n * q >= n || n * q <= -n
  {
    if q > 0 {
      assert n * (q - 1) >= 0;
    } else {
      assert n * (-1 - q) >= 0;
    }
  }

  lemma SmallMultiple(n: int, q: int, r: int)
    requires n * q == r && -n < r < n
    ensures r == 0
  {
    if q != 0 {
      BigMultiple(n, q);
    }
  }

  lemma SameRemainder(a: int, b: int, n: nat)
    requires n > 0
    ensures a % n == b % n <==> (a - b) % n == 0
  {
    var q := (a - b) / n;
    var p := q - a / n + b / n;
    assert n * p == n * q - n * (a / n) + n * (b / n);
    assert a - b == n * q + (a - b) % n;
    assert n * p == a % n - b % n - (a - b) % n;
    if (a - b) % n == 0 {
      SmallMultiple(n, p, a % n - b % n);
    }
    if a % n == b % n {
      SmallMultiple(n, p, -((a - b) % n));
    }
  }

  lemma Quotient(n: nat, q: nat, r: nat)
    requires r < n
    ensures (n * q + r) / n == q && (n * q + r) % n == r
  {
    var x := n * q + r;
    assert n * (x / n - q) == n * (x / n) - n * q;
    SmallMultiple(n, x / n - q, r - x % n);
  }

  lemma NextQuotient(k: nat, n: nat)
    requires n > 0
    ensures (k + 1) / n == k / n + if k % n + 1 == n then 1 else 0
    ensures (k + 1) % n == if k % n + 1 == n then 0 else k % n + 1
  {
    var q, r := k / n, k % n;
    assert k == n * q + r;
    NextQuotientFrom(n, q, r);
  }

  lemma NextQuotientFrom(n: nat, q: nat, r: nat)
    requires r < n
    ensures (n * q + r + 1) / n == q + if r + 1 == n then 1 else 0
    ensures (n * q + r + 1) % n == if r + 1 == n then 0 else r + 1
  {
    if r + 1 == n {
      NextMultiple(n, q);
      Quotient(n, q + 1, 0);
    } else {
      Quotient(n, q, r + 1);
    }
  }

  lemma NextMultiple(n: nat, q: nat)
    ensures n * (q + 1) == n * q + n
  {
  }

  // Before the counter wraps, or always if the number of workers divides its range, each worker gets the k / n
  // tasks of the full rounds, and one more if its turn comes in the round that is not full.
  lemma {:induction false} FairShares(c: nat, k: nat, n: nat, w: nat)
    requires w < n
    requires c + k <= UINT64 || UINT64 % n == 0
    ensures Share(c, k, n, w) == k / n + if (w - c) % n < k % n then 1 else 0
  {
    if k > 0 {
      FairShares(c, k - 1, n, w);
      NextQuotient(k - 1, n);
      TurnOf(c, k - 1, n, w);
    } else {
      Quotient(n, 0, 0);
    }
  }

  lemma TurnOf(c: nat, k: nat, n: nat, w: nat)
    requires w < n
    requires c + k < UINT64 || UINT64 % n == 0
    ensures Turn((c + k) % UINT64, n) == w <==> (w - c) % n == k % n
  {
    if c + k >= UINT64 {
      WrapKeepsRemainder(c + k, n);
    }
    SameRemainder(c + k, w, n);
    SameRemainder(k, w - c, n);
    assert w % n == w by {
      Quotient(n, 0, w);
    }
    assert (c + k) - w == k - (w - c);
  }

  lemma WrapKeepsRemainder(x: nat, n: nat)
    requires n > 0 && UINT64 % n == 0
    ensures x % UINT64 % n == x % n
  {
    var q, m := x / UINT64, UINT64 / n;
    assert x - x % UINT64 == UINT64 * q;
    assert UINT64 == n * m;
    assert UINT64 * q == n * (m * q) by {
      assert n * m * q == n * (m * q);
    }
    Quotient(n, m * q, 0);
    SameRemainder(x, x % UINT64, n);
  }

  // Of the tasks added in a row when the counter stands at c, those whose turn is worker w's.
  function Dealt(c: nat, tasks: seq<Task>, n: nat, w: nat): seq<Task>
    requires n > 0
  {
    if tasks == [] then
      []
    else
      var k := |tasks| - 1;
      Dealt(c, tasks[..k], n, w) + if Turn((c + k) % UINT64, n) == w then [tasks[k]] else []
  }

  lemma DealtNext(c: nat, tasks: seq<Task>, i: nat, n: nat, w: nat)
    requires n > 0 && i < |tasks|
    ensures Dealt(c, tasks[..i + 1], n, w)
            == Dealt(c, tasks[..i], n, w) + if Turn((c + i) % UINT64, n) == w then [tasks[i]] else []
  {
    assert tasks[..i + 1][..i] == tasks[..i];
  }

  lemma {:induction false} DealtCount(c: nat, tasks: seq<Task>, n: nat, w: nat)
    requires n > 0
    ensures |Dealt(c, tasks, n, w)| == Share(c, |tasks|, n, w)
  {
    if tasks != [] {
      DealtCount(c, tasks[..|tasks| - 1], n, w);
    }
  }

  // So of k tasks added in a row each worker gets the floor or the ceiling of k / n.
  lemma DealtFairly(c: nat, tasks: seq<Task>, n: nat, w: nat)
    requires w < n
    requires c + |tasks| <= UINT64 || UINT64 % n == 0
    ensures |Dealt(c, tasks, n, w)| == |tasks| / n + if (w - c) % n < |tasks| % n then 1 else 0
  {
    DealtCount(c, tasks, n, w);
    FairShares(c, |tasks|, n, w);
  }

  // ----- The pool -----

  // What the pool sees of a worker, which nobody else owns: its stop flag, whether it has a thread to join,
  // its counter of timer ids, and what has been handed to it.
  datatype Slot = Slot(stopped: bool, joinable: bool, nextTimerId: nat, tasks: seq<Task>, purges: seq<TimerId>)

  // A worker that has been constructed, and one that has been started as well.
  const FRESH := Slot(true, false, 0, [], [])
  const STARTED := Slot(false, true, 0, [], [])

  // Every id handed out names the worker and the id it was made from, which has been counted there.
  ghost predicate Tracks(issued: map<nat, (nat, TimerId)>, pool: seq<Slot>) {
    forall x :: x in issued ==> TracksId(x, issued[x], pool)
  }

  ghost predicate TracksId(x: nat, origin: (nat, TimerId), pool: seq<Slot>) {
    origin.0 < |pool| && origin.1 < TIMER_IDS && x == Pack(origin.0, origin.1)
    && origin.1 < pool[origin.0].nextTimerId
  }

  lemma TracksOneMore(issued: map<nat, (nat, TimerId)>, pool: seq<Slot>, i: nat, after: seq<Slot>)
    requires Tracks(issued, pool) && |pool| <= WORKER_IDS
    requires i < |pool| && pool[i].nextTimerId < TIMER_IDS
    requires after == pool[i := pool[i].(nextTimerId := pool[i].nextTimerId + 1)]
    ensures Pack(i, pool[i].nextTimerId) !in issued
    ensures Tracks(issued[Pack(i, pool[i].nextTimerId) := (i, pool[i].nextTimerId)], after)
  {
    var own := pool[i].nextTimerId;
    IdFindsItsWorker(i, own);
    forall x | x in issued
      ensures x != Pack(i, own) && TracksId(x, issued[x], after)
    {
      assert TracksId(x, issued[x], pool);
      IdFindsItsWorker(issued[x].0, issued[x].1);
    }
    assert TracksId(Pack(i, own), (i, own), after);
  }

  lemma TracksStill(issued: map<nat, (nat, TimerId)>, pool: seq<Slot>, i: nat, w: Slot)
    requires Tracks(issued, pool) && i < |pool| && w.nextTimerId == pool[i].nextTimerId
    ensures Tracks(issued, pool[i := w])
  {
    forall x | x in issued
      ensures TracksId(x, issued[x], pool[i := w])
    {
      assert TracksId(x, issued[x], pool);
    }
  }

  function Given(w: Slot, tasks: seq<Task>): Slot {
    w.(tasks := w.tasks + tasks)
  }

  lemma GivenMore(w: Slot, tasks: seq<Task>, task: Task)
    ensures Given(Given(w, tasks), [task]) == Given(w, tasks + [task])
    ensures Given(w, []) == w
  {
    assert w.tasks + tasks + [task] == w.tasks + (tasks + [task]);
    assert w.tasks + [] == w.tasks;
  }

  // The slot of a worker that has been started: what its transition system keeps of the calls made so far. The
  // lemmas say that the calls the pool makes do to it what the methods below do to a slot.
  function SlotOf(s: State): Slot {
    Slot(s.stopped, true, s.nextTimerId, Items(s.tasks), Items(s.purges))
  }

  lemma SlotAtStart()
    ensures SlotOf(INITIAL) == STARTED
  {
  }

  lemma RunThree(s: State, a: Step, b: Step, c: Step)
    requires Enabled(s, a) && Enabled(Apply(s, a), b) && Enabled(Apply(Apply(s, a), b), c)
    ensures CanRun(s, [a, b, c]) && Run(s, [a, b, c]) == Apply(Apply(Apply(s, a), b), c)
  {
    WorkerTheorems.RunOne(s, a);
    WorkerTheorems.RunSnoc(s, [a], b);
    assert [a] + [b] == [a, b];
    WorkerTheorems.RunSnoc(s, [a, b], c);
    assert [a, b] + [c] == [a, b, c];
  }

  lemma SlotAfterAddTask(s: State, p: Pid, task: Task)
    requires Pc(s, p).Idle?
    ensures var steps := [CallAddTask(p, task), PushTask(p), WriteFd(p)];
            CanRun(s, steps) && SlotOf(Run(s, steps)) == SlotOf(s).(tasks := SlotOf(s).tasks + [task])
  {
    RunThree(s, CallAddTask(p, task), PushTask(p), WriteFd(p));
    assert Items(s.tasks + [Pushed(task, p)]) == Items(s.tasks) + [task];
  }

  lemma SlotAfterAddTimer(s: State, p: Pid, delay: nat, interval: nat)
    requires Pc(s, p).Idle? && s.nextTimerId < TIMER_IDS
    ensures var steps := [CallAddTimer(p, delay, interval), PushTimer(p), WriteFd(p)];
            CanRun(s, steps) && SlotOf(Run(s, steps)) == SlotOf(s).(nextTimerId := s.nextTimerId + 1)
  {
    RunThree(s, CallAddTimer(p, delay, interval), PushTimer(p), WriteFd(p));
  }

  lemma SlotAfterPurge(s: State, p: Pid, id: TimerId)
    requires Pc(s, p).Idle?
    ensures var steps := [CallPurge(p, id), PushPurge(p), WriteFd(p)];
            CanRun(s, steps) && SlotOf(Run(s, steps)) == SlotOf(s).(purges := SlotOf(s).purges + [id])
  {
    RunThree(s, CallPurge(p, id), PushPurge(p), WriteFd(p));
    assert Items(s.purges + [Pushed(id, p)]) == Items(s.purges) + [id];
  }

  lemma SlotAfterStop(s: State, p: Pid)
    requires Pc(s, p).Idle? && !s.stopped
    ensures var steps := [CallStop(p), LoadStop(p), StoreStop(p), WriteFd(p)];
            CanRun(s, steps) && SlotOf(Run(s, steps)) == SlotOf(s).(stopped := true)
  {
    var three := [CallStop(p), LoadStop(p), StoreStop(p)];
    RunThree(s, CallStop(p), LoadStop(p), StoreStop(p));
    WorkerTheorems.RunSnoc(s, three, WriteFd(p));
    assert three + [WriteFd(p)] == [CallStop(p), LoadStop(p), StoreStop(p), WriteFd(p)];
  }

  // Each worker has been given its share of the tasks, and nothing else has changed.
  ghost predicate AllDealt(was: seq<Slot>, now: seq<Slot>, c: nat, tasks: seq<Task>) {
    && |was| == |now| > 0
    && forall w :: 0 <= w < |now| ==> now[w] == was[w].(tasks := was[w].tasks + Dealt(c, tasks, |now|, w))
  }

  lemma DealtNothing(pool: seq<Slot>, c: nat, tasks: seq<Task>)
    requires |pool| > 0
    ensures AllDealt(pool, pool, c, tasks[..0])
  {
    forall w | 0 <= w < |pool|
      ensures pool[w] == Given(pool[w], Dealt(c, tasks[..0], |pool|, w))
    {
      GivenMore(pool[w], [], 0);
    }
  }

  lemma DealtOneMore(
      was: seq<Slot>, now: seq<Slot>, after: seq<Slot>, c: nat, tasks: seq<Task>, i: nat, idx: nat)
    requires i < |tasks| && AllDealt(was, now, c, tasks[..i])
    requires idx == Turn((c + i) % UINT64, |now|) && after == now[idx := Given(now[idx], [tasks[i]])]
    ensures AllDealt(was, after, c, tasks[..i + 1])
  {
    forall w | 0 <= w < |after|
      ensures after[w] == Given(was[w], Dealt(c, tasks[..i + 1], |after|, w))
    {
      DealtNext(c, tasks, i, |now|, w);
      var dealt := Dealt(c, tasks[..i], |now|, w);
      GivenMore(was[w], dealt, tasks[i]);
      assert dealt + [] == dealt;
    }
  }

  lemma CounterStep(c: nat, i: nat)
    ensures ((c + i) % UINT64 + 1) % UINT64 == (c + (i + 1)) % UINT64
  {
  }

  class GeneralThreadPool {
    var nrThreads: nat
    var nextThread: nat
    var pool: seq<Slot>
    // The ids handed out so far, each with the worker that issued it and the worker's own id.
    ghost var issued: map<nat, (nat, TimerId)>

    // The workers in front run and those behind do not, as start leaves them.
    ghost predicate InOrder()
      reads this
    {
      forall i, j :: 0 <= i < j < |pool| ==>
        (!pool[j].stopped ==> !pool[i].stopped) && (pool[j].joinable ==> pool[i].joinable)
    }

    ghost predicate Valid()
      reads this
    {
      && |pool| <= nrThreads && InOrder()
      && (forall i :: 0 <= i < |pool| && !pool[i].stopped ==> pool[i].joinable)
    }

    // start has succeeded.
    ghost predicate Started()
      reads this
    {
      Valid() && nrThreads > 0 && |pool| == nrThreads && nextThread < UINT64
    }

    ghost predicate IssuedTracked()
      reads this
    {
      Tracks(issued, pool)
    }

    constructor ()
      ensures Valid() && nrThreads == 0 && nextThread == 0 && pool == [] && issued == map[]
    {
      nrThreads, nextThread, pool, issued := 0, 0, [], map[];
    }

    // One worker's start, which fails if the system refuses the eventfd.
    static method StartWorker(w: Slot, granted: bool) returns (ok: bool, v: Slot)
      ensures ok == (w.stopped && granted)
      ensures v == if ok then w.(stopped := false, joinable := true) else w
    {
      if !w.stopped || !granted {
        return false, w;
      }
      return true, w.(stopped := false, joinable := true);
    }

    // start: granted says for each worker whether the system gives it what it needs. After a failure the
    // number of threads is set all the same, and the last worker in the pool is the one that failed.
    method Start(n: nat, granted: seq<bool>) returns (ok: bool)
      requires Valid() && |granted| == n
      modifies this`nrThreads, this`pool
      ensures Valid()
      ensures ok <==> old(nrThreads) == 0 && n > 0 && forall i :: 0 <= i < n ==> granted[i]
      ensures old(nrThreads) != 0 || n == 0 ==> nrThreads == old(nrThreads) && pool == old(pool)
      ensures old(nrThreads) == 0 && n > 0 ==> nrThreads == n
      ensures ok ==> |pool| == n && forall i :: 0 <= i < n ==> pool[i] == STARTED
      ensures !ok && old(nrThreads) == 0 && n > 0 ==>
                && 0 < |pool| <= n && !granted[|pool| - 1] && pool[|pool| - 1] == FRESH
                && forall i :: 0 <= i < |pool| - 1 ==> granted[i] && pool[i] == STARTED
    {
      if nrThreads != 0 {
        return false;
      }
      if n == 0 {
        return false;
      }
      nrThreads := n;
      ok := true;
      var i := 0;
      while ok && i < nrThreads
        invariant i <= n && nrThreads == n && |pool| == i
        invariant ok ==> forall j :: 0 <= j < i ==> granted[j] && pool[j] == STARTED
        invariant !ok ==> i > 0 && !granted[i - 1] && pool[i - 1] == FRESH
        invariant !ok ==> forall j :: 0 <= j < i - 1 ==> granted[j] && pool[j] == STARTED
        decreases n - i, ok
      {
        var w;
        ok, w := StartWorker(FRESH, granted[i]);
        pool := pool + [w];
        i := i + 1;
      }
    }

    // One worker's stop: only the first takes effect.
    static method StopWorker(w: Slot) returns (ok: bool, v: Slot)
      ensures ok == !w.stopped && v == w.(stopped := true)
    {
      if w.stopped {
        return false, w;
      }
      return true, w.(stopped := true);
    }

    // stop: it goes no further than the first worker that is not running, but behind that one none is.
    method Stop() returns (ok: bool)
      requires Valid()
      modifies this`pool
      ensures Valid() && |pool| == |old(pool)|
      ensures ok <==> forall i :: 0 <= i < |pool| ==> !old(pool)[i].stopped
      ensures forall i :: 0 <= i < |pool| ==> pool[i] == old(pool)[i].(stopped := true)
    {
      ok := true;
      var i := 0;
      while i < |pool|
        invariant i <= |pool| && |pool| == |old(pool)|
        invariant ok ==> forall j :: 0 <= j < i ==> !old(pool)[j].stopped
        invariant !ok ==> exists j :: 0 <= j < i && old(pool)[j].stopped
        invariant forall j :: 0 <= j < i ==> pool[j] == old(pool)[j].(stopped := true)
        invariant forall j :: i <= j < |pool| ==> pool[j] == old(pool)[j]
      {
        if ok {
          var w;
          ok, w := StopWorker(pool[i]);
          pool := pool[i := w];
        }
        i := i + 1;
      }
    }

    // wait, which returns when the threads it joins have ended: it goes no further than the first worker
    // without a thread, but behind that one there is none. The pool can be started again.
    method Wait() returns (ok: bool, ghost joined: set<nat>)
      requires Valid()
      modifies this`pool, this`nrThreads
      ensures Valid() && nrThreads == 0 && pool == []
      ensures ok <==> forall i :: 0 <= i < |old(pool)| ==> old(pool)[i].joinable
      ensures joined == set i | 0 <= i < |old(pool)| && old(pool)[i].joinable
    {
      ok, joined := true, {};
      var i := 0;
      while i < |pool|
        invariant i <= |pool| && pool == old(pool)
        invariant ok ==> forall j :: 0 <= j < i ==> pool[j].joinable
        invariant !ok ==> exists j :: 0 <= j < i && !pool[j].joinable
        invariant joined == set j | 0 <= j < i && pool[j].joinable
      {
        if ok {
          ok := pool[i].joinable;
          if ok {
            joined := joined + {i};
          }
        }
        i := i + 1;
      }
      nrThreads := 0;
      pool := [];
    }

    // The next worker in turn; the counter is 64 bits wide.
    method NextWorker() returns (idx: nat)
      requires Started()
      modifies this`nextThread
      ensures Started()
      ensures idx == Turn(old(nextThread), nrThreads) && nextThread == (old(nextThread) + 1) % UINT64
    {
      idx := nextThread % nrThreads;
      nextThread := (nextThread + 1) % UINT64;
    }

    method AddTask(task: Task) returns (ghost idx: nat)
      requires Started() && IssuedTracked()
      modifies this`nextThread, this`pool
      ensures Started() && IssuedTracked() && nextThread == (old(nextThread) + 1) % UINT64
      ensures idx == Turn(old(nextThread), nrThreads)
      ensures pool == old(pool)[idx := old(pool)[idx].(tasks := old(pool)[idx].tasks + [task])]
    {
      var i := NextWorker();
      idx := i;
      var w := Given(pool[i], [task]);
      TracksStill(issued, pool, i, w);
      pool := pool[i := w];
    }

    // A caller that adds a number of tasks in a row: each worker gets those whose turn it is, in order.
    method AddTasks(tasks: seq<Task>)
      requires Started() && IssuedTracked()
      modifies this`nextThread, this`pool
      ensures Started() && IssuedTracked() && nextThread == (old(nextThread) + |tasks|) % UINT64
      ensures AllDealt(old(pool), pool, old(nextThread), tasks)
    {
      ghost var (was, c) := (pool, nextThread);
      var i := 0;
      DealtNothing(pool, nextThread, tasks);
      while i < |tasks|
        invariant i <= |tasks| && Started() && IssuedTracked() && nextThread == (c + i) % UINT64
        invariant AllDealt(was, pool, c, tasks[..i])
      {
        AddNext(was, c, tasks, i);
        i := i + 1;
      }
      assert tasks[..i] == tasks;
    }

    // The body of that loop.
    method AddNext(ghost was: seq<Slot>, ghost c: nat, tasks: seq<Task>, i: nat)
      requires Started() && IssuedTracked() && i < |tasks|
      requires nextThread == (c + i) % UINT64 && AllDealt(was, pool, c, tasks[..i])
      modifies this`nextThread, this`pool
      ensures Started() && IssuedTracked()
      ensures nextThread == (c + (i + 1)) % UINT64 && AllDealt(was, pool, c, tasks[..i + 1])
    {
      CounterStep(c, i);
      ghost var before := pool;
      ghost var idx := AddTask(tasks[i]);
      DealtOneMore(was, before, pool, c, tasks, i, idx);
    }

    // addRepeatTask: with at most 2^16 workers, none of which has used up its ids, the id is new in the pool.
    method AddRepeatTask() returns (id: nat, ghost idx: nat)
      requires Started() && IssuedTracked()
      requires nrThreads <= WORKER_IDS && forall i :: 0 <= i < |pool| ==> pool[i].nextTimerId < TIMER_IDS
      modifies this`nextThread, this`pool, this`issued
      ensures Started() && IssuedTracked() && nextThread == (old(nextThread) + 1) % UINT64
      ensures idx == Turn(old(nextThread), nrThreads)
      ensures pool == old(pool)[idx := old(pool)[idx].(nextTimerId := old(pool)[idx].nextTimerId + 1)]
      ensures id !in old(issued) && issued == old(issued)[id := (idx, old(pool)[idx].nextTimerId)]
    {
      var i := NextWorker();
      idx := i;
      var own := pool[i].nextTimerId;
      pool := pool[i := pool[i].(nextTimerId := own + 1)];
      id := Pack(i, own);
      issued := issued[id := (i, own)];
      TracksOneMore(old(issued), old(pool), i, pool);
    }

    // purgeTimerTask: the worker in the high bits is told the id in the low ones. For an id that was handed out
    // that is the worker that issued it, and its own id.
    method PurgeTimerTask(id: nat)
      requires Started() && IssuedTracked() && WorkerOf(id) < nrThreads
      modifies this`pool
      ensures Started() && IssuedTracked()
      ensures var w := WorkerOf(id);
              pool == old(pool)[w := old(pool)[w].(purges := old(pool)[w].purges + [IdOf(id)])]
      ensures id in issued && nrThreads <= WORKER_IDS ==> issued[id] == (WorkerOf(id), IdOf(id))
    {
      if id in issued && nrThreads <= WORKER_IDS {
        assert TracksId(id, issued[id], pool);
        IdFindsItsWorker(issued[id].0, issued[id].1);
      }
      var idx := WorkerOf(id);
      var w := pool[idx].(purges := pool[idx].purges + [IdOf(id)]);
      TracksStill(issued, pool, idx, w);
      pool := pool[idx := w];
    }
  }
}
