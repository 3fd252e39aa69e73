// Clients that lock overlapping batches at the same time (src/lock/MemLockCore.h): when can each of them
// prevent the other, and when is there a winner.

module MemLockRaces {
  import opened MemLock
  import opened MemLockRuns

  // The first key of a that is in b too.
  ghost predicate FirstCommon<K>(a: seq<K>, b: seq<K>, i: nat) {
    i < |a| && a[i] in b && forall j :: 0 <= j < i ==> a[j] !in b
  }

  // The batches have keys in common and do not meet the same one of them first.
  ghost predicate Crossed<K>(a: seq<K>, b: seq<K>) {
    exists i: nat, j: nat :: FirstCommon(a, b, i) && FirstCommon(b, a, j) && a[i] != b[j]
  }

  lemma {:induction false} FirstCommonExists<K>(a: seq<K>, b: seq<K>, n: nat) returns (i: nat)
    requires n < |a| && a[n] in b
    ensures FirstCommon(a, b, i)
  {
    i := 0;
    while a[i] !in b
      invariant i <= n && forall j :: 0 <= j < i ==> a[j] !in b
      decreases n - i
    {
      i := i + 1;
    }
  }

  // Two clients that have just called lockBatch, each for distinct keys none of which is locked. There may be
  // others, which hold other keys.
  ghost predicate Racing<K(!new)>(s: State<K>, p: nat, q: nat, a: seq<K>, b: seq<K>) {
    && Inv(s) && p != q && p in s.clients && q in s.clients
    && s.clients[p] == Locking(a, 0) && s.clients[q] == Locking(b, 0)
    && Distinct(a) && Distinct(b) && NoneHeld(s.held, a) && NoneHeld(s.held, b)
  }

  // Only the two clients move, and they carry on with what they are at.
  ghost predicate OnlyBy<K(!new)>(steps: seq<Step<K>>, p: nat, q: nat) {
    forall i :: 0 <= i < |steps| ==> steps[i].action.Advance? && (steps[i].client == p || steps[i].client == q)
  }

  ghost predicate BothRefused<K>(s: State<K>, p: nat, q: nat) {
    p in s.clients && q in s.clients && s.clients[p].RollingBack? && s.clients[q].RollingBack?
  }

  ghost predicate CanRefuseBoth<K(!new)>(s: State<K>, p: nat, q: nat, steps: seq<Step<K>>)
    requires Inv(s)
  {
    OnlyBy(steps, p, q) && CanRun(s, steps) && BothRefused(Run(s, steps), p, q)
  }

  // ----- One client's insertions -----

  lemma Inserts<K(!new)>(s: State<K>, p: nat)
    requires Inv(s) && p in s.clients && s.clients[p].Locking? && s.clients[p].next < |s.clients[p].keys|
    requires s.clients[p].keys[s.clients[p].next] !in s.held
    ensures var c := s.clients[p];
            var t := Apply(s, Step(p, Advance));
            && Inv(t) && t.held == s.held + {c.keys[c.next]}
            && t.clients == s.clients[p := Locking(c.keys, c.next + 1)]
  {
    StepKeepsInv(s, Step(p, Advance));
  }

  lemma IsRefused<K(!new)>(s: State<K>, p: nat)
    requires Inv(s) && p in s.clients && s.clients[p].Locking? && s.clients[p].next < |s.clients[p].keys|
    requires s.clients[p].keys[s.clients[p].next] in s.held
    ensures var c := s.clients[p];
            var t := Apply(s, Step(p, Advance));
            && Inv(t) && t.held == s.held
            && t.clients == s.clients[p := RollingBack(c.keys, c.next, 0)]
  {
    StepKeepsInv(s, Step(p, Advance));
  }

  // ----- Crossed batches can both be refused -----

  lemma {:induction false} RunConcat<K(!new)>(s: State<K>, x: seq<Step<K>>, y: seq<Step<K>>)
    requires Inv(s) && CanRun(s, x) && CanRun(Run(s, x), y)
    ensures CanRun(s, x + y) && Run(s, x + y) == Run(Run(s, x), y)
    decreases |x|
  {
    if x == [] {
      assert x + y == y;
    } else {
      StepKeepsInv(s, x[0]);
      assert (x + y)[1..] == x[1..] + y;
      RunConcat(Apply(s, x[0]), x[1..], y);
    }
  }

  // A client inserts its keys from next to n, all of them free.
  lemma {:induction false} TakesUntil<K(!new)>(s: State<K>, p: nat, n: nat) returns (steps: seq<Step<K>>)
    requires Inv(s) && p in s.clients && s.clients[p].Locking? && s.clients[p].next <= n <= |s.clients[p].keys|
    requires Distinct(s.clients[p].keys)
    requires NoneHeld(s.held, s.clients[p].keys[s.clients[p].next..n])
    ensures OnlyBy(steps, p, p) && CanRun(s, steps)
    ensures var c := s.clients[p];
            var t := Run(s, steps);
            t.held == s.held + KeySet(c.keys[c.next..n]) && t.clients == s.clients[p := Locking(c.keys, n)]
    decreases n - s.clients[p].next
  {
    var keys, m := s.clients[p].keys, s.clients[p].next;
    steps := [];
    if m < n {
      var t := TakesOne(s, p, n);
      var rest := TakesUntil(t, p, n);
      RunCons(s, Step(p, Advance), t, rest);
      OnlyByCons(rest, p);
      steps := [Step(p, Advance)] + rest;
    } else {
      assert keys[m..n] == [];
    }
  }

  lemma TakesOne<K(!new)>(s: State<K>, p: nat, n: nat) returns (t: State<K>)
    requires Inv(s) && p in s.clients && s.clients[p].Locking? && s.clients[p].next < n <= |s.clients[p].keys|
    requires Distinct(s.clients[p].keys)
    requires NoneHeld(s.held, s.clients[p].keys[s.clients[p].next..n])
    ensures Enabled(s, Step(p, Advance)) && t == Apply(s, Step(p, Advance)) && Inv(t)
    ensures var c := s.clients[p];
            && t.clients == s.clients[p := Locking(c.keys, c.next + 1)]
            && NoneHeld(t.held, c.keys[c.next + 1..n])
            && t.held + KeySet(c.keys[c.next + 1..n]) == s.held + KeySet(c.keys[c.next..n])
  {
    var keys, m := s.clients[p].keys, s.clients[p].next;
    assert keys[m..n] == [keys[m]] + keys[m + 1..n];
    assert keys[m] in keys[m..n];
    Inserts(s, p);
    t := Apply(s, Step(p, Advance));
    DistinctTail(keys, m, n);
  }

  lemma DistinctTail<K>(keys: seq<K>, m: nat, n: nat)
    requires m < n <= |keys| && Distinct(keys)
    ensures keys[m] !in keys[m + 1..n]
  {
    assert forall j :: m < j < n ==> keys[j] != keys[m];
  }

  // From s to t client p is refused at index end, and no key leaves the map.
  ghost predicate EndsRefused<K(!new)>(s: State<K>, p: nat, end: nat, t: State<K>) {
    && p in s.clients && s.clients[p].Locking? && s.held <= t.held
    && t.clients == s.clients[p := RollingBack(s.clients[p].keys, end, 0)]
  }

  // A client with a key ahead that is in the map is refused sooner or later.
  lemma {:induction false} RunsIntoRefusal<K(!new)>(s: State<K>, p: nat, j: nat)
    returns (steps: seq<Step<K>>, end: nat)
    requires Inv(s) && p in s.clients && s.clients[p].Locking? && s.clients[p].next <= j < |s.clients[p].keys|
    requires s.clients[p].keys[j] in s.held
    ensures OnlyBy(steps, p, p) && CanRun(s, steps) && end < |s.clients[p].keys|
    ensures EndsRefused(s, p, end, Run(s, steps))
    decreases j - s.clients[p].next
  {
    var c := s.clients[p];
    if c.keys[c.next] in s.held {
      RefusedNow(s, p);
      steps, end := [Step(p, Advance)] + [], c.next;
    } else {
      assert c.next != j;
      Inserts(s, p);
      var t := Apply(s, Step(p, Advance));
      assert t.clients[p] == Locking(c.keys, c.next + 1);
      var rest;
      rest, end := RunsIntoRefusal(t, p, j);
      RefusedLater(s, t, p, end, rest);
      steps := [Step(p, Advance)] + rest;
    }
  }

  lemma OnlyByCons<K(!new)>(rest: seq<Step<K>>, p: nat)
    requires OnlyBy(rest, p, p)
    ensures OnlyBy([Step(p, Advance)] + rest, p, p)
  {
  }

  lemma RefusedNow<K(!new)>(s: State<K>, p: nat)
    requires Inv(s) && p in s.clients && s.clients[p].Locking? && s.clients[p].next < |s.clients[p].keys|
    requires s.clients[p].keys[s.clients[p].next] in s.held
    ensures var steps := [Step(p, Advance)] + [];
            OnlyBy(steps, p, p) && CanRun(s, steps) && EndsRefused(s, p, s.clients[p].next, Run(s, steps))
  {
    IsRefused(s, p);
    RunCons(s, Step(p, Advance), Apply(s, Step(p, Advance)), []);
  }

  lemma RefusedLater<K(!new)>(s: State<K>, t: State<K>, p: nat, end: nat, rest: seq<Step<K>>)
    requires Inv(s) && p in s.clients && s.clients[p].Locking? && s.held <= t.held
    requires Enabled(s, Step(p, Advance)) && t == Apply(s, Step(p, Advance)) && Inv(t)
    requires t.clients == s.clients[p := Locking(s.clients[p].keys, s.clients[p].next + 1)]
    requires OnlyBy(rest, p, p) && CanRun(t, rest) && EndsRefused(t, p, end, Run(t, rest))
    ensures var steps := [Step(p, Advance)] + rest;
            OnlyBy(steps, p, p) && CanRun(s, steps) && EndsRefused(s, p, end, Run(s, steps))
  {
    RunCons(s, Step(p, Advance), t, rest);
    OnlyByCons(rest, p);
    RefusedFrom(s, t, p, end, Run(t, rest));
  }

  lemma RefusedFrom<K(!new)>(s: State<K>, t: State<K>, p: nat, end: nat, u: State<K>)
    requires p in s.clients && s.clients[p].Locking? && s.held <= t.held
    requires t.clients == s.clients[p := Locking(s.clients[p].keys, s.clients[p].next + 1)]
    requires EndsRefused(t, p, end, u)
    ensures EndsRefused(s, p, end, u)
  {
  }

  // Up to their first common keys, which differ, the batches have nothing in common.
  lemma HeadsApart<K>(a: seq<K>, b: seq<K>, i: nat, j: nat, k: K)
    requires FirstCommon(a, b, i) && FirstCommon(b, a, j) && a[i] != b[j]
    requires k in b[0..j + 1]
    ensures k !in a[0..i + 1]
  {
    forall m | 0 <= m <= i
      ensures a[m] != k
    {
      var n :| 0 <= n <= j && b[n] == k;
      assert a[m] in b ==> m == i;
      assert b[n] in a ==> n == j;
    }
  }

  // Each takes its keys up to the first common one; these differ, so both are there to take.
  lemma BothTakeTheirFirst<K(!new)>(s: State<K>, p: nat, q: nat, a: seq<K>, b: seq<K>, i: nat, j: nat)
    returns (steps: seq<Step<K>>)
    requires Racing(s, p, q, a, b) && FirstCommon(a, b, i) && FirstCommon(b, a, j) && a[i] != b[j]
    ensures OnlyBy(steps, p, q) && CanRun(s, steps)
    ensures var t := Run(s, steps);
            && a[i] in t.held && b[j] in t.held
            && t.clients == s.clients[p := Locking(a, i + 1)][q := Locking(b, j + 1)]
  {
    assert forall k :: k in a[0..i + 1] ==> k in a;
    var first := TakesUntil(s, p, i + 1);
    var t := Run(s, first);
    SecondTakesItsFirst(s, t, q, a, b, i, j);
    var second := TakesUntil(t, q, j + 1);
    RunConcat(s, first, second);
    OnlyByEither(first, second, p, q);
    FirstsAreHeld(s, t, Run(t, second), a, b, i, j);
    steps := first + second;
  }

  lemma FirstsAreHeld<K(!new)>(s: State<K>, t: State<K>, u: State<K>, a: seq<K>, b: seq<K>, i: nat, j: nat)
    requires i < |a| && j < |b|
    requires t.held == s.held + KeySet(a[0..i + 1]) && u.held == t.held + KeySet(b[0..j + 1])
    ensures a[i] in u.held && b[j] in u.held
  {
    assert a[0..i + 1][i] == a[i];
    assert b[0..j + 1][j] == b[j];
  }

  lemma SecondTakesItsFirst<K(!new)>(s: State<K>, t: State<K>, q: nat, a: seq<K>, b: seq<K>, i: nat, j: nat)
    requires FirstCommon(a, b, i) && FirstCommon(b, a, j) && a[i] != b[j]
    requires NoneHeld(s.held, b) && t.held == s.held + KeySet(a[0..i + 1])
    ensures NoneHeld(t.held, b[0..j + 1])
  {
    forall k | k in b[0..j + 1]
      ensures k !in t.held
    {
      HeadsApart(a, b, i, j, k);
    }
  }

  lemma OnlyByEither<K(!new)>(x: seq<Step<K>>, y: seq<Step<K>>, p: nat, q: nat)
    requires (OnlyBy(x, p, p) || OnlyBy(x, p, q)) && (OnlyBy(y, q, q) || OnlyBy(y, p, q))
    ensures OnlyBy(x + y, p, q)
  {
  }

  lemma BothRunIntoRefusal<K(!new)>(s: State<K>, p: nat, q: nat, m: nat, n: nat) returns (steps: seq<Step<K>>)
    requires Inv(s) && p != q && p in s.clients && q in s.clients
    requires s.clients[p].Locking? && s.clients[p].next <= m < |s.clients[p].keys|
    requires s.clients[q].Locking? && s.clients[q].next <= n < |s.clients[q].keys|
    requires s.clients[p].keys[m] in s.held && s.clients[q].keys[n] in s.held
    ensures CanRefuseBoth(s, p, q, steps)
  {
    var first, e := RunsIntoRefusal(s, p, m);
    var t := Run(s, first);
    var second, f := RunsIntoRefusal(t, q, n);
    RunConcat(s, first, second);
    OnlyByEither(first, second, p, q);
    steps := first + second;
  }

  lemma CrossedBothRefused<K(!new)>(s: State<K>, p: nat, q: nat, a: seq<K>, b: seq<K>)
    returns (steps: seq<Step<K>>)
    requires Racing(s, p, q, a, b) && Crossed(a, b)
    ensures CanRefuseBoth(s, p, q, steps)
  {
    var i: nat, j: nat :| FirstCommon(a, b, i) && FirstCommon(b, a, j) && a[i] != b[j];
    var m :| 0 <= m < |a| && a[m] == b[j];
    var n :| 0 <= n < |b| && b[n] == a[i];
    assert m > i && n > j;
    var first := BothTakeTheirFirst(s, p, q, a, b, i, j);
    var second := BothRunIntoRefusal(Run(s, first), p, q, m, n);
    RunConcat(s, first, second);
    OnlyByEither(first, second, p, q);
    steps := first + second;
  }

  // ----- Other batches always have a winner -----

  // The keys of both batches are locked by nobody but these two.
  ghost predicate OthersAway<K(!new)>(s: State<K>, p: nat, q: nat, a: seq<K>, b: seq<K>)
    requires WellFormedClients(s)
  {
    forall i, k :: Owns(s, i, k) && (k in a || k in b) ==> i == p || i == q
  }

  // Not refused: on the way to the batch or in possession of it.
  ghost predicate OnTheWay<K>(c: Client<K>, a: seq<K>) {
    (c.Locking? || c.Holding?) && c.keys == a
  }

  // The batches have no key in common, and none is refused.
  ghost predicate Undisturbed<K(!new)>(s: State<K>, p: nat, q: nat, a: seq<K>, b: seq<K>) {
    p in s.clients && q in s.clients && OnTheWay(s.clients[p], a) && OnTheWay(s.clients[q], b)
  }

  // Neither has come to the common key that both meet first.
  ghost predicate Undecided<K>(s: State<K>, p: nat, q: nat, a: seq<K>, b: seq<K>, i: nat, j: nat) {
    && p in s.clients && q in s.clients
    && s.clients[p].Locking? && s.clients[p].keys == a && s.clients[p].next <= i
    && s.clients[q].Locking? && s.clients[q].keys == b && s.clients[q].next <= j
  }

  // Client p has it, and q is before it, or has been refused there.
  ghost predicate Ahead<K>(s: State<K>, p: nat, q: nat, a: seq<K>, b: seq<K>, i: nat, j: nat) {
    && p in s.clients && q in s.clients
    && OnTheWay(s.clients[p], a) && (s.clients[p].Locking? ==> s.clients[p].next > i)
    && match s.clients[q]
       case Locking(keys, next) => keys == b && next <= j
       case RollingBack(keys, end, _) => keys == b && end == j
       case Idle => true
       case _ => false
  }

  ghost predicate Decided<K>(s: State<K>, p: nat, q: nat, a: seq<K>, b: seq<K>, i: nat, j: nat) {
    Undecided(s, p, q, a, b, i, j) || Ahead(s, p, q, a, b, i, j) || Ahead(s, q, p, b, a, j, i)
  }

  lemma OthersStayAway<K(!new)>(s: State<K>, p: nat, q: nat, a: seq<K>, b: seq<K>, step: Step<K>)
    requires Inv(s) && OthersAway(s, p, q, a, b) && Enabled(s, step) && (step.client == p || step.client == q)
    ensures Inv(Apply(s, step)) && OthersAway(Apply(s, step), p, q, a, b)
  {
    StepKeepsInv(s, step);
    assert forall i, k :: i != step.client ==> Owns(Apply(s, step), i, k) == Owns(s, i, k);
  }

  // A key that neither of the two has on its account can be inserted.
  lemma KeyIsFree<K(!new)>(s: State<K>, p: nat, q: nat, a: seq<K>, b: seq<K>, k: K)
    requires Inv(s) && OthersAway(s, p, q, a, b) && (k in a || k in b) && !Owns(s, p, k) && !Owns(s, q, k)
    ensures k !in s.held
  {
    assert forall i :: !Owns(s, i, k);
  }

  // Two batches that both meet the key a[i] == b[j] first.
  ghost predicate SameFirst<K>(a: seq<K>, b: seq<K>, i: nat, j: nat) {
    Distinct(a) && Distinct(b) && FirstCommon(a, b, i) && FirstCommon(b, a, j) && a[i] == b[j]
  }

  // Client q has at most the keys before its first common one on its account, so it is not in the way.
  lemma NotInTheWay<K(!new)>(s: State<K>, p: nat, q: nat, a: seq<K>, b: seq<K>, j: nat, k: K)
    requires Inv(s) && q in s.clients && FirstCommon(b, a, j) && k in a
    requires match s.clients[q]
             case Locking(keys, next) => keys == b && next <= j
             case RollingBack(keys, end, _) => keys == b && end == j
             case Idle => true
             case _ => false
    ensures !Owns(s, q, k)
  {
    assert forall r :: 0 <= r < j ==> b[r] != k;
  }

  lemma NotItsOwn<K(!new)>(s: State<K>, p: nat, a: seq<K>)
    requires Inv(s) && p in s.clients && s.clients[p].Locking? && s.clients[p].keys == a && Distinct(a)
    requires s.clients[p].next < |a|
    ensures !Owns(s, p, a[s.clients[p].next])
  {
  }

  // A client whose next key the other does not have inserts it.
  lemma GetsItsNext<K(!new)>(s: State<K>, p: nat, q: nat, a: seq<K>, b: seq<K>)
    requires Inv(s) && OthersAway(s, p, q, a, b) && p in s.clients && s.clients[p].Locking?
    requires s.clients[p].keys == a && Distinct(a) && s.clients[p].next < |a| && !Owns(s, q, a[s.clients[p].next])
    ensures Inv(Apply(s, Step(p, Advance)))
    ensures Apply(s, Step(p, Advance)).clients == s.clients[p := Locking(a, s.clients[p].next + 1)]
  {
    NotItsOwn(s, p, a);
    KeyIsFree(s, p, q, a, b, a[s.clients[p].next]);
    Inserts(s, p);
  }

  lemma UndecidedStep<K(!new)>(s: State<K>, p: nat, q: nat, a: seq<K>, b: seq<K>, i: nat, j: nat)
    requires Inv(s) && p != q && OthersAway(s, p, q, a, b) && SameFirst(a, b, i, j) && Undecided(s, p, q, a, b, i, j)
    ensures var t := Apply(s, Step(p, Advance));
            Undecided(t, p, q, a, b, i, j) || Ahead(t, p, q, a, b, i, j)
  {
    NotInTheWay(s, p, q, a, b, j, a[s.clients[p].next]);
    GetsItsNext(s, p, q, a, b);
  }

  lemma AheadGoesOn<K(!new)>(s: State<K>, p: nat, q: nat, a: seq<K>, b: seq<K>, i: nat, j: nat)
    requires Inv(s) && p != q && OthersAway(s, p, q, a, b) && SameFirst(a, b, i, j) && Ahead(s, p, q, a, b, i, j)
    requires s.clients[p].Locking?
    ensures Ahead(Apply(s, Step(p, Advance)), p, q, a, b, i, j)
  {
    if s.clients[p].next < |a| {
      NotInTheWay(s, p, q, a, b, j, a[s.clients[p].next]);
      GetsItsNext(s, p, q, a, b);
    }
  }

  lemma OwnsTheFirst<K(!new)>(s: State<K>, p: nat, q: nat, a: seq<K>, b: seq<K>, i: nat, j: nat)
    requires Inv(s) && SameFirst(a, b, i, j) && Ahead(s, p, q, a, b, i, j)
    ensures Owns(s, p, b[j]) && forall k :: Owns(s, p, k) ==> k in a
  {
    if s.clients[p].Locking? {
      assert a[..s.clients[p].next][i] == a[i];
    }
  }

  lemma BehindGoesOn<K(!new)>(s: State<K>, p: nat, q: nat, a: seq<K>, b: seq<K>, i: nat, j: nat)
    requires Inv(s) && p != q && OthersAway(s, p, q, a, b) && SameFirst(a, b, i, j) && Ahead(s, p, q, a, b, i, j)
    requires s.clients[q].Locking? || s.clients[q].RollingBack?
    ensures Ahead(Apply(s, Step(q, Advance)), p, q, a, b, i, j)
  {
    OwnsTheFirst(s, p, q, a, b, i, j);
    if s.clients[q].Locking? {
      if s.clients[q].next < j {
        assert OthersAway(s, q, p, b, a);
        GetsItsNext(s, q, p, b, a);
      } else {
        IsRefused(s, q);
      }
    }
  }

  lemma StepKeepsDecided<K(!new)>(s: State<K>, p: nat, q: nat, a: seq<K>, b: seq<K>, i: nat, j: nat, c: nat)
    requires Inv(s) && p != q && OthersAway(s, p, q, a, b) && SameFirst(a, b, i, j) && Decided(s, p, q, a, b, i, j)
    requires (c == p || c == q) && Enabled(s, Step(c, Advance))
    ensures Decided(Apply(s, Step(c, Advance)), p, q, a, b, i, j)
  {
    assert OthersAway(s, q, p, b, a) && SameFirst(b, a, j, i);
    if Undecided(s, p, q, a, b, i, j) {
      if c == p {
        UndecidedStep(s, p, q, a, b, i, j);
      } else {
        UndecidedStep(s, q, p, b, a, j, i);
      }
    } else if Ahead(s, p, q, a, b, i, j) {
      if c == p {
        AheadGoesOn(s, p, q, a, b, i, j);
      } else {
        BehindGoesOn(s, p, q, a, b, i, j);
      }
    } else {
      if c == q {
        AheadGoesOn(s, q, p, b, a, j, i);
      } else {
        BehindGoesOn(s, q, p, b, a, j, i);
      }
    }
  }

  lemma {:induction false} RunKeepsDecided<K(!new)>(
      s: State<K>, p: nat, q: nat, a: seq<K>, b: seq<K>, i: nat, j: nat, steps: seq<Step<K>>)
    requires Inv(s) && p != q && OthersAway(s, p, q, a, b) && SameFirst(a, b, i, j) && Decided(s, p, q, a, b, i, j)
    requires CanRun(s, steps) && OnlyBy(steps, p, q)
    ensures Decided(Run(s, steps), p, q, a, b, i, j)
    decreases |steps|
  {
    if steps != [] {
      var step := steps[0];
      assert step == Step(step.client, Advance);
      OthersStayAway(s, p, q, a, b, step);
      StepKeepsDecided(s, p, q, a, b, i, j, step.client);
      RunKeepsDecided(Apply(s, step), p, q, a, b, i, j, steps[1..]);
    }
  }

  lemma UndisturbedStep<K(!new)>(s: State<K>, p: nat, q: nat, a: seq<K>, b: seq<K>)
    requires Inv(s) && p != q && OthersAway(s, p, q, a, b) && Undisturbed(s, p, q, a, b)
    requires Distinct(a) && (forall k :: k in a ==> k !in b) && s.clients[p].Locking?
    ensures Undisturbed(Apply(s, Step(p, Advance)), p, q, a, b)
  {
    if s.clients[p].next < |a| {
      assert forall k :: Owns(s, q, k) ==> k in b;
      GetsItsNext(s, p, q, a, b);
    }
  }

  lemma {:induction false} RunUndisturbed<K(!new)>(
      s: State<K>, p: nat, q: nat, a: seq<K>, b: seq<K>, steps: seq<Step<K>>)
    requires Inv(s) && p != q && OthersAway(s, p, q, a, b) && Undisturbed(s, p, q, a, b)
    requires Distinct(a) && Distinct(b) && (forall k :: k in a ==> k !in b)
    requires CanRun(s, steps) && OnlyBy(steps, p, q)
    ensures Undisturbed(Run(s, steps), p, q, a, b)
    decreases |steps|
  {
    if steps != [] {
      var step := steps[0];
      assert step == Step(step.client, Advance);
      OthersStayAway(s, p, q, a, b, step);
      if step.client == p {
        UndisturbedStep(s, p, q, a, b);
      } else {
        assert OthersAway(s, q, p, b, a);
        UndisturbedStep(s, q, p, b, a);
      }
      RunUndisturbed(Apply(s, step), p, q, a, b, steps[1..]);
    }
  }

  // Batches that are not crossed have nothing in common or meet the same key first; in the second case one of
  // the clients is never refused.
  lemma OthersHaveAWinner<K(!new)>(s: State<K>, p: nat, q: nat, a: seq<K>, b: seq<K>, steps: seq<Step<K>>)
    requires Racing(s, p, q, a, b) && !Crossed(a, b) && CanRun(s, steps) && OnlyBy(steps, p, q)
    ensures var t := Run(s, steps);
            p in t.clients && q in t.clients && (OnTheWay(t.clients[p], a) || OnTheWay(t.clients[q], b))
  {
    assert OthersAway(s, p, q, a, b);
    if n :| 0 <= n < |a| && a[n] in b {
      var m :| 0 <= m < |b| && b[m] == a[n];
      var i := FirstCommonExists(a, b, n);
      var j := FirstCommonExists(b, a, m);
      assert SameFirst(a, b, i, j);
      RunKeepsDecided(s, p, q, a, b, i, j, steps);
    } else {
      RunUndisturbed(s, p, q, a, b, steps);
    }
  }

  // Both of two clients can be refused exactly when their batches are crossed: when the first key of the one
  // that the other has too is not the first key of the other that the one has too.
  lemma BothRefusedExactly<K(!new)>(s: State<K>, p: nat, q: nat, a: seq<K>, b: seq<K>)
    requires Racing(s, p, q, a, b)
    ensures (exists steps :: CanRefuseBoth(s, p, q, steps)) <==> Crossed(a, b)
  {
    if Crossed(a, b) {
      var steps := CrossedBothRefused(s, p, q, a, b);
    } else {
      forall steps | CanRefuseBoth(s, p, q, steps)
        ensures false
      {
        OthersHaveAWinner(s, p, q, a, b, steps);
      }
    }
  }

  // The smallest case: two clients, the keys 1 and 2, and an empty map.
  lemma BothCanBeRefused(s: State<int>)
    requires s.held == {} && s.clients == map[0 := Locking([1, 2], 0), 1 := Locking([2, 1], 0)]
    ensures Inv(s) && exists steps :: CanRefuseBoth(s, 0, 1, steps)
  {
    assert FirstCommon([1, 2], [2, 1], 0) && FirstCommon([2, 1], [1, 2], 0);
    BothRefusedExactly(s, 0, 1, [1, 2], [2, 1]);
  }

  // ----- A common order of the keys -----

  // The keys ascend in an order that all clients share.
  ghost predicate Ascending<K(!new)>(rank: K -> int, keys: seq<K>) {
    forall i, j :: 0 <= i < j < |keys| ==> rank(keys[i]) < rank(keys[j])
  }

  // Ascending batches are never crossed.
  lemma AscendingNotCrossed<K(!new)>(rank: K -> int, a: seq<K>, b: seq<K>)
    requires Ascending(rank, a) && Ascending(rank, b)
    ensures !Crossed(a, b)
  {
    forall i: nat, j: nat | FirstCommon(a, b, i) && FirstCommon(b, a, j)
      ensures a[i] == b[j]
    {
      var m :| 0 <= m < |a| && a[m] == b[j];
      var n :| 0 <= n < |b| && b[n] == a[i];
      assert m >= i && n >= j;
    }
  }

  ghost predicate AllAscending<K(!new)>(rank: K -> int, s: State<K>) {
    forall i :: i in s.clients && !s.clients[i].Idle? ==> Ascending(rank, s.clients[i].keys)
  }

  // No key in the map is above the last of the sequence.
  ghost predicate Below<K(!new)>(rank: K -> int, held: set<K>, own: seq<K>) {
    forall k :: k in held ==> own != [] && rank(k) <= rank(own[|own| - 1])
  }

  // Client w has not been refused, and no key in the map is above the last it has inserted.
  ghost predicate OnTop<K(!new)>(rank: K -> int, s: State<K>, w: nat)
    requires WellFormedClients(s)
  {
    w in s.clients && (s.clients[w].Locking? || s.clients[w].Holding?) && Below(rank, s.held, s.clients[w].Owned())
  }

  lemma BelowNewLast<K(!new)>(rank: K -> int, held: set<K>, keys: seq<K>, n: nat)
    requires n < |keys| && forall k :: k in held ==> rank(k) <= rank(keys[n])
    ensures Below(rank, held + {keys[n]}, keys[..n + 1])
  {
    assert keys[..n + 1][n] == keys[n];
  }

  lemma NextIsAbove<K(!new)>(rank: K -> int, held: set<K>, keys: seq<K>, n: nat)
    requires n < |keys| && Ascending(rank, keys) && Below(rank, held, keys[..n])
    ensures forall k :: k in held ==> rank(k) < rank(keys[n])
  {
    if n > 0 {
      assert keys[..n][n - 1] == keys[n - 1];
    }
  }

  lemma KeepsAscending<K(!new)>(rank: K -> int, s: State<K>, p: nat)
    requires Inv(s) && AllAscending(rank, s) && Enabled(s, Step(p, Advance))
    ensures AllAscending(rank, Apply(s, Step(p, Advance)))
  {
  }

  // The client on top inserts its next key, which is above all others.
  lemma TopGoesOn<K(!new)>(rank: K -> int, s: State<K>, w: nat)
    requires Inv(s) && AllAscending(rank, s) && OnTop(rank, s, w) && Enabled(s, Step(w, Advance))
    ensures Inv(Apply(s, Step(w, Advance))) && OnTop(rank, Apply(s, Step(w, Advance)), w)
  {
    StepKeepsInv(s, Step(w, Advance));
    var keys, n := s.clients[w].keys, s.clients[w].next;
    if n == |keys| {
      assert keys[..n] == keys;
    } else {
      NextIsAbove(rank, s.held, keys, n);
      Inserts(s, w);
      BelowNewLast(rank, s.held, keys, n);
    }
  }

  // Another client's insertion puts it on top, if its key is above all others, or changes nothing there.
  lemma OtherInserts<K(!new)>(rank: K -> int, s: State<K>, w: nat, p: nat) returns (v: nat)
    requires Inv(s) && OnTop(rank, s, w) && p != w && p in s.clients
    requires s.clients[p].Locking? && s.clients[p].next < |s.clients[p].keys|
    requires s.clients[p].keys[s.clients[p].next] !in s.held
    ensures Inv(Apply(s, Step(p, Advance))) && OnTop(rank, Apply(s, Step(p, Advance)), v)
  {
    Inserts(s, p);
    var keys, n := s.clients[p].keys, s.clients[p].next;
    if forall k :: k in s.held ==> rank(k) <= rank(keys[n]) {
      v := p;
      BelowNewLast(rank, s.held, keys, n);
    } else {
      v := w;
      BelowStill(rank, s.held, s.clients[w].Owned(), keys[n]);
    }
  }

  lemma BelowStill<K(!new)>(rank: K -> int, held: set<K>, own: seq<K>, x: K)
    requires Below(rank, held, own) && !forall k :: k in held ==> rank(k) <= rank(x)
    ensures Below(rank, held + {x}, own)
  {
  }

  lemma TopStep<K(!new)>(rank: K -> int, s: State<K>, w: nat, p: nat) returns (v: nat)
    requires Inv(s) && AllAscending(rank, s) && OnTop(rank, s, w) && Enabled(s, Step(p, Advance))
    ensures Inv(Apply(s, Step(p, Advance))) && OnTop(rank, Apply(s, Step(p, Advance)), v)
  {
    var c := s.clients[p];
    if p == w {
      TopGoesOn(rank, s, w);
      v := w;
    } else if c.Locking? && c.next < |c.keys| && c.keys[c.next] !in s.held {
      v := OtherInserts(rank, s, w, p);
    } else {
      StepKeepsInv(s, Step(p, Advance));
      v := w;
    }
  }

  lemma {:induction false} RunKeepsTop<K(!new)>(rank: K -> int, s: State<K>, w: nat, steps: seq<Step<K>>)
    returns (v: nat)
    requires Inv(s) && AllAscending(rank, s) && OnTop(rank, s, w) && CanRun(s, steps)
    requires forall i :: 0 <= i < |steps| ==> steps[i].action.Advance?
    ensures OnTop(rank, Run(s, steps), v)
    decreases |steps|
  {
    v := w;
    if steps != [] {
      var step := steps[0];
      assert step == Step(step.client, Advance);
      KeepsAscending(rank, s, step.client);
      v := TopStep(rank, s, w, step.client);
      v := RunKeepsTop(rank, Apply(s, step), v, steps[1..]);
    }
  }

  // If any number of clients lock batches in a common order, on an empty map, then at every moment some client
  // has not been refused; so when none can go on, somebody holds its batch.
  lemma OrderedClientsHaveAWinner<K(!new)>(rank: K -> int, s: State<K>, w: nat, steps: seq<Step<K>>)
    returns (v: nat)
    requires s.held == {} && w in s.clients && AllAscending(rank, s)
    requires forall i :: i in s.clients ==> s.clients[i].Locking? && s.clients[i].next == 0
    requires Inv(s) && CanRun(s, steps) && forall i :: 0 <= i < |steps| ==> steps[i].action.Advance?
    ensures var t := Run(s, steps);
            && v in t.clients && (t.clients[v].Locking? || t.clients[v].Holding?)
            && (t.clients[v].Locking? ==> Enabled(t, Step(v, Advance)))
  {
    v := RunKeepsTop(rank, s, w, steps);
  }
}
