// Any number of clients of one keyed lock (src/lock/MemLockCore.h), each locking and unlocking batches, with
// their single insertions into and erasures from the concurrent map interleaved in any order.

module MemLockRuns {
  import opened MemLock

  // Where a client is: in the loop of lockBatch, in the unlockBatch of its failure, between the two calls, or
  // in the unlockBatch that gives the batch back. A client locking one key has a batch of one.
  datatype Client<K> =
    | Idle
    | Locking(keys: seq<K>, next: nat)
    | RollingBack(keys: seq<K>, end: nat, next: nat)
    | Holding(keys: seq<K>)
    | Unlocking(keys: seq<K>, next: nat)
  {
    ghost predicate WellFormed() {
      match this
      case Idle => true
      case Locking(keys, next) => next <= |keys| && Distinct(keys[..next])
      case RollingBack(keys, end, next) => next <= end < |keys| && Distinct(keys[..end])
      case Holding(keys) => Distinct(keys)
      case Unlocking(keys, next) => next <= |keys| && Distinct(keys)
    }

    // The keys in the map on this client's account: inserted by it and not yet erased by it.
    ghost function Owned(): seq<K>
      requires WellFormed()
    {
      match this
      case Idle => []
      case Locking(keys, next) => keys[..next]
      case RollingBack(keys, end, next) => keys[next..end]
      case Holding(keys) => keys
      case Unlocking(keys, next) => keys[next..|keys|]
    }
  }

  datatype State<K> = State(held: set<K>, clients: map<nat, Client<K>>)

  // What a client can do next.
  datatype Action<K> =
    | Lock(batch: seq<K>)  // calls lockBatch
    | Advance              // one insertion or erasure, or the end of a loop
    | Unlock               // calls unlockBatch on the batch it holds

  datatype Step<K> = Step(client: nat, action: Action<K>)

  ghost predicate Enabled<K>(s: State<K>, step: Step<K>) {
    step.client in s.clients &&
    match step.action
    case Lock(_) => s.clients[step.client].Idle?
    case Unlock => s.clients[step.client].Holding?
    case Advance =>
      match s.clients[step.client]
      case Idle => false
      case Holding(_) => false
      case Locking(keys, next) => next <= |keys|
      case RollingBack(keys, end, next) => next <= end <= |keys|
      case Unlocking(keys, next) => next <= |keys|
  }

  // One step of a client, and what it does to the map.
  ghost function Move<K(!new)>(held: set<K>, c: Client<K>, action: Action<K>): (set<K>, Client<K>)
    requires action.Advance? ==> c.Locking? || c.RollingBack? || c.Unlocking?
    requires action.Unlock? ==> c.Holding?
    requires c.WellFormed()
  {
    match action
    case Lock(batch) => (held, Locking(batch, 0))
    case Unlock => (held, Unlocking(c.keys, 0))
    case Advance =>
      match c
      case Locking(keys, next) =>
        if next == |keys| then (held, Holding(keys))
        else if keys[next] in held then (held, RollingBack(keys, next, 0))
        else (held + {keys[next]}, Locking(keys, next + 1))
      case RollingBack(keys, end, next) =>
        if next == end then (held, Idle) else (held - {keys[next]}, RollingBack(keys, end, next + 1))
      case Unlocking(keys, next) =>
        if next == |keys| then (held, Idle) else (held - {keys[next]}, Unlocking(keys, next + 1))
  }

  ghost function Apply<K(!new)>(s: State<K>, step: Step<K>): State<K>
    requires Inv(s) && Enabled(s, step)
  {
    var (held, c) := Move(s.held, s.clients[step.client], step.action);
    State(held, s.clients[step.client := c])
  }

  // ----- The invariant -----

  ghost predicate WellFormedClients<K>(s: State<K>) {
    forall i :: i in s.clients ==> s.clients[i].WellFormed()
  }

  ghost predicate Owns<K>(s: State<K>, i: nat, k: K)
    requires WellFormedClients(s)
  {
    i in s.clients && k in s.clients[i].Owned()
  }

  ghost predicate OneOwner<K(!new)>(s: State<K>)
    requires WellFormedClients(s)
  {
    forall i, j, k :: Owns(s, i, k) && Owns(s, j, k) ==> i == j
  }

  ghost predicate HeldIsOwned<K(!new)>(s: State<K>)
    requires WellFormedClients(s)
  {
    && (forall i, k :: Owns(s, i, k) ==> k in s.held)
    && (forall k :: k in s.held ==> exists i :: Owns(s, i, k))
  }

  ghost predicate Inv<K(!new)>(s: State<K>) {
    WellFormedClients(s) && OneOwner(s) && HeldIsOwned(s)
  }

  // How a step changes the keys on the client's account: it gains a key that was free, loses one of its own,
  // or the account and the map stay as they are.
  ghost predicate AccountChange<K(!new)>(held: set<K>, c: Client<K>, after: (set<K>, Client<K>))
    requires c.WellFormed() && after.1.WellFormed()
  {
    var before, now := c.Owned(), after.1.Owned();
    || (after.0 == held && forall k :: k in now <==> k in before)
    || (exists x :: x !in held && after.0 == held + {x} && forall k :: k in now <==> k in before || k == x)
    || (exists x :: x in before && after.0 == held - {x} && forall k :: k in now <==> k in before && k != x)
  }

  lemma InsertMove<K(!new)>(held: set<K>, c: Client<K>)
    requires c.Locking? && c.WellFormed()
    requires forall k :: k in c.Owned() ==> k in held
    ensures var after := Move(held, c, Advance);
            after.1.WellFormed() && AccountChange(held, c, after)
  {
    if c.next < |c.keys| && c.keys[c.next] !in held {
      var x := c.keys[c.next];
      assert c.keys[..c.next + 1] == c.keys[..c.next] + [x];
      assert x !in c.Owned();
    } else if c.next == |c.keys| {
      assert c.keys[..c.next] == c.keys;
    } else {
      assert c.keys[0..c.next] == c.keys[..c.next];
    }
  }

  lemma DropFirst<K(!new)>(keys: seq<K>, next: nat, end: nat)
    requires next < end <= |keys| && Distinct(keys[..end])
    ensures forall k :: k in keys[next + 1..end] <==> k in keys[next..end] && k != keys[next]
    ensures keys[next] in keys[next..end]
  {
    var x := keys[next];
    assert keys[next..end] == [x] + keys[next + 1..end];
    assert forall j :: next < j < end ==> keys[..end][j] != keys[..end][next];
  }

  lemma EraseMove<K(!new)>(held: set<K>, c: Client<K>)
    requires (c.RollingBack? || c.Unlocking?) && c.WellFormed()
    ensures var after := Move(held, c, Advance); after.1.WellFormed() && AccountChange(held, c, after)
  {
    match c
    case RollingBack(keys, end, next) =>
      if next < end {
        DropFirst(keys, next, end);
      }
    case Unlocking(keys, next) =>
      if next < |keys| {
        assert keys[..|keys|] == keys;
        DropFirst(keys, next, |keys|);
      }
  }

  lemma MoveChangesAccount<K(!new)>(s: State<K>, step: Step<K>)
    requires Inv(s) && Enabled(s, step)
    ensures var c := s.clients[step.client];
            var after := Move(s.held, c, step.action);
            after.1.WellFormed() && AccountChange(s.held, c, after)
  {
    var c := s.clients[step.client];
    match step.action
    case Lock(_) =>
    case Unlock => assert c.keys[0..|c.keys|] == c.keys;
    case Advance =>
      if c.Locking? {
        assert forall k :: k in c.Owned() ==> Owns(s, step.client, k);
        InsertMove(s.held, c);
      } else {
        EraseMove(s.held, c);
      }
  }

  // Every step of every client keeps the map the disjoint union of the clients' accounts.
  lemma StepKeepsInv<K(!new)>(s: State<K>, step: Step<K>)
    requires Inv(s) && Enabled(s, step)
    ensures Inv(Apply(s, step))
  {
    MoveChangesAccount(s, step);
    var i := step.client;
    var t := Apply(s, step);
    assert forall j, k :: j != i ==> Owns(t, j, k) == Owns(s, j, k);
    AccountsStayDisjoint(s, t, i);
    HeldStaysOwned(s, t, i);
  }

  lemma AccountsStayDisjoint<K(!new)>(s: State<K>, t: State<K>, i: nat)
    requires Inv(s) && WellFormedClients(t) && i in s.clients && i in t.clients
    requires forall j, k :: j != i ==> Owns(t, j, k) == Owns(s, j, k)
    requires AccountChange(s.held, s.clients[i], (t.held, t.clients[i]))
    ensures OneOwner(t)
  {
    forall k | Owns(t, i, k)
      ensures Owns(s, i, k) || k !in s.held
    {
    }
  }

  lemma HeldStaysOwned<K(!new)>(s: State<K>, t: State<K>, i: nat)
    requires Inv(s) && WellFormedClients(t) && i in s.clients && i in t.clients
    requires forall j, k :: j != i ==> Owns(t, j, k) == Owns(s, j, k)
    requires AccountChange(s.held, s.clients[i], (t.held, t.clients[i]))
    ensures HeldIsOwned(t)
  {
    forall k | k in t.held
      ensures exists j :: Owns(t, j, k)
    {
      if k in s.held {
        var j :| Owns(s, j, k);
        assert Owns(t, j, k);
      } else {
        assert Owns(t, i, k);
      }
    }
    forall j, k | Owns(t, j, k)
      ensures k in t.held
    {
      if j != i {
        assert Owns(s, j, k);
        assert k in s.held;
        if k !in t.held {
          assert Owns(s, i, k);
        }
      } else {
        if k in s.clients[i].Owned() {
          assert Owns(s, i, k);
        }
      }
    }
  }

  // ----- Runs -----

  ghost predicate CanRun<K(!new)>(s: State<K>, steps: seq<Step<K>>)
    requires Inv(s)
    decreases |steps|
  {
    steps != [] ==>
      Enabled(s, steps[0]) && (StepKeepsInv(s, steps[0]); CanRun(Apply(s, steps[0]), steps[1..]))
  }

  ghost function Run<K(!new)>(s: State<K>, steps: seq<Step<K>>): (t: State<K>)
    requires Inv(s) && CanRun(s, steps)
    ensures Inv(t)
    decreases |steps|
  {
    if steps == [] then s else
      StepKeepsInv(s, steps[0]);
      Run(Apply(s, steps[0]), steps[1..])
  }

  // Nobody has locked anything yet.
  ghost predicate Initial<K(!new)>(s: State<K>)
    ensures Initial(s) ==> Inv(s)
  {
    s.held == {} && forall i :: i in s.clients ==> s.clients[i].Idle?
  }

  // In every reachable state a key in the map belongs to exactly one client, a client's keys are in the map,
  // and two batches that are held share no key.
  lemma LocksAreExclusive<K(!new)>(s: State<K>, steps: seq<Step<K>>)
    requires Initial(s) && CanRun(s, steps)
    ensures var t := Run(s, steps);
            && (forall k :: k in t.held ==> exists i :: Owns(t, i, k) && forall j :: Owns(t, j, k) ==> j == i)
            && (forall i, k :: Owns(t, i, k) ==> k in t.held)
            && (forall i, j :: i in t.clients && j in t.clients && i != j
                  && t.clients[i].Holding? && t.clients[j].Holding?
                  ==> KeySet(t.clients[i].keys) !! KeySet(t.clients[j].keys))
  {
    var t := Run(s, steps);
    forall k | k in t.held
      ensures exists i :: Owns(t, i, k) && forall j :: Owns(t, j, k) ==> j == i
    {
      var i :| Owns(t, i, k);
    }
    forall i, j | i in t.clients && j in t.clients && i != j && t.clients[i].Holding? && t.clients[j].Holding?
      ensures KeySet(t.clients[i].keys) !! KeySet(t.clients[j].keys)
    {
      forall k | k in t.clients[i].keys
        ensures k !in t.clients[j].keys
      {
        assert Owns(t, i, k);
        assert !Owns(t, j, k);
      }
    }
  }

  // A step changes nothing on another client's account; in particular a rollback erases no key of another.
  lemma StepSparesOthers<K(!new)>(s: State<K>, step: Step<K>, i: nat, k: K)
    requires Inv(s) && Enabled(s, step) && i != step.client && Owns(s, i, k)
    ensures Inv(Apply(s, step)) && Owns(Apply(s, step), i, k) && k in Apply(s, step).held
  {
    StepKeepsInv(s, step);
    assert Owns(Apply(s, step), i, k);
  }

  // What a rollback or an unlock erases, the same client had inserted.
  lemma ErasedWasOwned<K(!new)>(s: State<K>, step: Step<K>, k: K)
    requires Inv(s) && Enabled(s, step) && k in s.held && k !in Apply(s, step).held
    ensures Owns(s, step.client, k)
  {
    MoveChangesAccount(s, step);
  }

  // An insertion is refused exactly when the batch repeats an earlier key of its own or another client has the
  // key on its account at that moment.
  lemma RefusalHasAReason<K(!new)>(s: State<K>, i: nat)
    requires Inv(s) && i in s.clients && s.clients[i].Locking? && s.clients[i].next < |s.clients[i].keys|
    ensures var c := s.clients[i];
            var k := c.keys[c.next];
            Apply(s, Step(i, Advance)).clients[i] == RollingBack(c.keys, c.next, 0)
            <==> k in c.keys[..c.next] || exists j :: j != i && Owns(s, j, k)
  {
    var c := s.clients[i];
    var k := c.keys[c.next];
    if k in c.keys[..c.next] {
      assert Owns(s, i, k);
    } else if k in s.held {
      var j :| Owns(s, j, k);
      assert j != i;
    }
  }

  // Once every client is idle again, the map is empty: no lock is leaked by a failed batch.
  lemma NoLeak<K(!new)>(s: State<K>)
    requires Inv(s) && forall i :: i in s.clients ==> s.clients[i].Idle?
    ensures s.held == {}
  {
    assert forall i, k :: !Owns(s, i, k);
  }

  // ----- A client that is left alone -----

  ghost function Distance<K>(c: Client<K>): nat
    requires c.WellFormed()
  {
    match c
    case Idle => 0
    case Holding(_) => 0
    case Locking(keys, next) => 2 * (|keys| - next) + 2 + next
    case RollingBack(_, end, next) => end - next + 1
    case Unlocking(keys, next) => |keys| - next + 1
  }

  // The client's steps until it has its batch, or has returned.
  ghost function Alone<K(!new)>(s: State<K>, i: nat): (t: State<K>)
    requires Inv(s) && i in s.clients
    ensures Inv(t) && i in t.clients && (t.clients[i].Idle? || t.clients[i].Holding?)
    decreases Distance(s.clients[i])
  {
    if s.clients[i].Idle? || s.clients[i].Holding? then
      s
    else
      StepKeepsInv(s, Step(i, Advance));
      Alone(Apply(s, Step(i, Advance)), i)
  }

  lemma EraseAccount<K(!new)>(held: set<K>, c: Client<K>)
    requires (c.RollingBack? || c.Unlocking?) && c.WellFormed()
    ensures var after := Move(held, c, Advance);
            after.1.WellFormed() && after.0 - KeySet(after.1.Owned()) == held - KeySet(c.Owned())
            && (after.1.Idle? || after.1.RollingBack? || after.1.Unlocking?)
  {
    match c
    case RollingBack(keys, end, next) =>
      if next < end {
        DropFirst(keys, next, end);
      }
    case Unlocking(keys, next) =>
      if next < |keys| {
        assert keys[..|keys|] == keys;
        DropFirst(keys, next, |keys|);
      }
  }

  lemma {:induction false} RollBackAlone<K(!new)>(s: State<K>, i: nat)
    requires Inv(s) && i in s.clients && (s.clients[i].RollingBack? || s.clients[i].Unlocking?)
    ensures Alone(s, i).clients[i].Idle?
    ensures Alone(s, i).held == s.held - KeySet(s.clients[i].Owned())
    decreases Distance(s.clients[i])
  {
    StepKeepsInv(s, Step(i, Advance));
    EraseAccount(s.held, s.clients[i]);
    var t := Apply(s, Step(i, Advance));
    if !t.clients[i].Idle? {
      RollBackAlone(t, i);
    }
  }

  // A client in its loop has put the keys before next into the map, and before is what was there without.
  ghost predicate HasInserted<K(!new)>(before: set<K>, held: set<K>, keys: seq<K>, next: nat) {
    next <= |keys| && NoneHeld(before, keys[..next]) && held == before + KeySet(keys[..next])
  }

  lemma InsertedOneMore<K(!new)>(before: set<K>, held: set<K>, keys: seq<K>, next: nat)
    requires HasInserted(before, held, keys, next) && next < |keys| && keys[next] !in held
    ensures HasInserted(before, held + {keys[next]}, keys, next + 1)
  {
    assert keys[..next + 1] == keys[..next] + [keys[next]];
  }

  // The first conflict from next on, if there is any, decides.
  lemma {:induction false} LockAlone<K(!new)>(s: State<K>, i: nat, before: set<K>)
    requires Inv(s) && i in s.clients && s.clients[i].Locking?
    requires HasInserted(before, s.held, s.clients[i].keys, s.clients[i].next)
    ensures var keys := s.clients[i].keys;
            var t := Alone(s, i);
            if Distinct(keys) && NoneHeld(before, keys)
            then t.clients[i] == Holding(keys) && t.held == before + KeySet(keys)
            else t.clients[i].Idle? && t.held == before
    decreases Distance(s.clients[i])
  {
    var c := s.clients[i];
    var keys, next := c.keys, c.next;
    StepKeepsInv(s, Step(i, Advance));
    var t := Apply(s, Step(i, Advance));
    if next == |keys| {
      assert keys[..next] == keys;
      assert t.clients[i] == Holding(keys);
    } else if keys[next] in s.held {
      assert t.clients[i] == RollingBack(keys, next, 0);
      RefusedAlone(t, i, before);
    } else {
      InsertedOneMore(before, s.held, keys, next);
      LockAlone(t, i, before);
    }
  }

  lemma RefusedAlone<K(!new)>(s: State<K>, i: nat, before: set<K>)
    requires Inv(s) && i in s.clients && s.clients[i].RollingBack? && s.clients[i].next == 0
    requires HasInserted(before, s.held, s.clients[i].keys, s.clients[i].end)
    requires s.clients[i].keys[s.clients[i].end] in s.held
    ensures var keys := s.clients[i].keys;
            var t := Alone(s, i);
            !(Distinct(keys) && NoneHeld(before, keys)) && t.clients[i].Idle? && t.held == before
  {
    var c := s.clients[i];
    RollBackAlone(s, i);
    assert c.keys[0..c.end] == c.keys[..c.end];
    RefusedBatch(before, c.keys, c.end);
  }

  lemma RefusedBatch<K>(before: set<K>, keys: seq<K>, n: nat)
    requires n < |keys| && keys[n] in before + KeySet(keys[..n])
    ensures !(Distinct(keys) && NoneHeld(before, keys))
  {
    if keys[n] in keys[..n] {
      var j :| 0 <= j < n && keys[j] == keys[n];
    }
  }

  // The client's steps until the loop of lockBatch is over.
  ghost function Attempt<K(!new)>(s: State<K>, i: nat): (t: State<K>)
    requires Inv(s) && i in s.clients
    ensures Inv(t) && i in t.clients && !t.clients[i].Locking?
    decreases Distance(s.clients[i])
  {
    if s.clients[i].Locking? then
      StepKeepsInv(s, Step(i, Advance));
      Attempt(Apply(s, Step(i, Advance)), i)
    else
      s
  }

  lemma {:induction false} AttemptIsOnTheWay<K(!new)>(s: State<K>, i: nat)
    requires Inv(s) && i in s.clients
    ensures Alone(Attempt(s, i), i) == Alone(s, i)
    decreases Distance(s.clients[i])
  {
    if s.clients[i].Locking? {
      StepKeepsInv(s, Step(i, Advance));
      AttemptIsOnTheWay(Apply(s, Step(i, Advance)), i);
    }
  }

  // The loop over the keys from start on has ended with the whole batch, or at the first conflict.
  ghost predicate EndsAtConflict<K(!new)>(before: set<K>, keys: seq<K>, start: nat, c: Client<K>) {
    match c
    case Holding(ks) => ks == keys && forall j :: start <= j < |keys| ==> !Conflict(before, keys, j)
    case RollingBack(ks, end, next) =>
      && ks == keys && next == 0 && start <= end < |keys| && Conflict(before, keys, end)
      && forall j :: start <= j < end ==> !Conflict(before, keys, j)
    case _ => false
  }

  lemma StartEarlier<K(!new)>(before: set<K>, keys: seq<K>, start: nat, c: Client<K>)
    requires start < |keys| && !Conflict(before, keys, start) && EndsAtConflict(before, keys, start + 1, c)
    ensures EndsAtConflict(before, keys, start, c)
  {
  }

  // The loop ends at the first conflict from next on, if there is any, with the keys before it in the map.
  lemma {:induction false} AttemptAlone<K(!new)>(s: State<K>, i: nat, before: set<K>)
    requires Inv(s) && i in s.clients && s.clients[i].Locking?
    requires HasInserted(before, s.held, s.clients[i].keys, s.clients[i].next)
    ensures var keys := s.clients[i].keys;
            var t := Attempt(s, i);
            EndsAtConflict(before, keys, s.clients[i].next, t.clients[i])
    decreases Distance(s.clients[i])
  {
    var keys, next := s.clients[i].keys, s.clients[i].next;
    StepKeepsInv(s, Step(i, Advance));
    var t := Apply(s, Step(i, Advance));
    if next == |keys| {
      assert t.clients[i] == Holding(keys);
    } else if keys[next] in s.held {
      assert t.clients[i] == RollingBack(keys, next, 0);
    } else {
      assert t.clients[i] == Locking(keys, next + 1);
      InsertedOneMore(before, s.held, keys, next);
      AttemptAlone(t, i, before);
      StartEarlier(before, keys, next, Attempt(t, i).clients[i]);
    }
  }

  // Without interference the steps do what the method LockBatch does on the map of the class: they take the
  // whole batch, or are refused at the least index in conflict and leave the map as it was.
  lemma LockBatchAlone<K(!new)>(s: State<K>, i: nat, keys: seq<K>)
    requires Inv(s) && i in s.clients && s.clients[i].Idle?
    ensures Inv(Apply(s, Step(i, Lock(keys))))
    ensures var u := Apply(s, Step(i, Lock(keys)));
            var t := Alone(u, i);
            if Distinct(keys) && NoneHeld(s.held, keys)
            then t.clients[i] == Holding(keys) && t.held == s.held + KeySet(keys)
            else
              && t.clients[i].Idle? && t.held == s.held
              && var refused := Attempt(u, i);
                 && Alone(refused, i) == t && refused.clients[i].RollingBack? && refused.clients[i].keys == keys
                 && refused.clients[i].next == 0 && refused.clients[i].end < |keys|
                 && Conflict(s.held, keys, refused.clients[i].end)
                 && forall j :: 0 <= j < refused.clients[i].end ==> !Conflict(s.held, keys, j)
  {
    StepKeepsInv(s, Step(i, Lock(keys)));
    var u := Apply(s, Step(i, Lock(keys)));
    LockAlone(u, i, s.held);
    AttemptAlone(u, i, s.held);
    AttemptIsOnTheWay(u, i);
    NoConflict(s.held, keys);
  }

  // ----- Putting runs together -----

  lemma RunCons<K(!new)>(s: State<K>, step: Step<K>, t: State<K>, rest: seq<Step<K>>)
    requires Inv(s) && Enabled(s, step) && t == Apply(s, step)
    requires Inv(t) && CanRun(t, rest)
    ensures CanRun(s, [step] + rest) && Run(s, [step] + rest) == Run(t, rest)
  {
    assert ([step] + rest)[1..] == rest;
  }
}
