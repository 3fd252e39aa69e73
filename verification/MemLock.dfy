// The keyed try-lock (src/lock/MemLockCore.h) as its callers see it when nobody else is at work: a batch is
// locked as a whole or not at all.

module MemLock {

  // keys[i] cannot be inserted: it is in the map already, or an earlier key of the batch has put it there.
  predicate Conflict<K(==)>(held: set<K>, keys: seq<K>, i: nat)
    requires i < |keys|
  {
    keys[i] in held || keys[i] in keys[..i]
  }

  ghost predicate Distinct<K>(keys: seq<K>) {
    forall i, j :: 0 <= i < j < |keys| ==> keys[i] != keys[j]
  }

  ghost predicate NoneHeld<K>(held: set<K>, keys: seq<K>) {
    forall k :: k in keys ==> k !in held
  }

  function KeySet<K(==)>(keys: seq<K>): set<K> {
    set k | k in keys
  }

  // The map with every key of the sequence at 0, and without them.
  function Inserted<K(==)>(m: map<K, int>, keys: seq<K>): map<K, int> {
    m + map k | k in keys :: 0
  }

  function Erased<K(==)>(m: map<K, int>, keys: seq<K>): map<K, int> {
    m - KeySet(keys)
  }

  // No conflict at all is the same as distinct keys none of which is held.
  lemma NoConflict<K>(held: set<K>, keys: seq<K>)
    ensures (forall i :: 0 <= i < |keys| ==> !Conflict(held, keys, i)) <==> Distinct(keys) && NoneHeld(held, keys)
  {
    if forall i :: 0 <= i < |keys| ==> !Conflict(held, keys, i) {
      forall i, j | 0 <= i < j < |keys|
        ensures keys[i] != keys[j]
      {
        assert !Conflict(held, keys, j);
        assert keys[i] == keys[..j][i];
      }
      forall k | k in keys
        ensures k !in held
      {
        var i :| 0 <= i < |keys| && keys[i] == k;
        assert !Conflict(held, keys, i);
      }
    }
    if Distinct(keys) && NoneHeld(held, keys) {
      forall i | 0 <= i < |keys|
        ensures !Conflict(held, keys, i)
      {
      }
    }
  }

  // Unlocking a batch takes back what locking it did exactly when none of its keys was there before.
  lemma EraseUndoesInsert<K>(m: map<K, int>, keys: seq<K>)
    ensures Erased(Inserted(m, keys), keys) == m <==> NoneHeld(m.Keys, keys)
  {
    var r := Erased(Inserted(m, keys), keys);
    if NoneHeld(m.Keys, keys) {
      assert r.Keys == m.Keys;
      assert forall k :: k in m ==> r[k] == m[k];
    } else {
      var k :| k in keys && k in m.Keys;
      assert k !in r;
    }
  }

  lemma InsertOneMore<K>(m: map<K, int>, keys: seq<K>, i: nat)
    requires i < |keys| && !Conflict(m.Keys, keys, i)
    ensures Inserted(m, keys[..i + 1]) == Inserted(m, keys[..i])[keys[i] := 0]
    ensures keys[i] !in Inserted(m, keys[..i])
  {
    assert keys[..i + 1] == keys[..i] + [keys[i]];
  }

  lemma EraseOneMore<K>(m: map<K, int>, keys: seq<K>, begin: nat, i: nat)
    requires begin <= i < |keys|
    ensures Erased(m, keys[begin..i + 1]) == Erased(m, keys[begin..i]) - {keys[i]}
  {
    assert keys[begin..i + 1] == keys[begin..i] + [keys[i]];
  }

  // The rollback erases the keys before the conflict, all of them new: the map is as it was.
  lemma RollbackRestores<K>(m: map<K, int>, keys: seq<K>, n: nat)
    requires n <= |keys| && forall j :: 0 <= j < n ==> !Conflict(m.Keys, keys, j)
    ensures Erased(Inserted(m, keys[..n]), keys[0..n]) == m
  {
    forall k | k in keys[..n]
      ensures k !in m.Keys
    {
      var i :| 0 <= i < n && keys[i] == k;
      assert !Conflict(m.Keys, keys, i);
    }
    assert keys[0..n] == keys[..n];
    EraseUndoesInsert(m, keys[..n]);
  }

  class MemLockCore<K(==)> {
    var hashMap: map<K, int>

    constructor ()
      ensures hashMap == map[]
    {
      hashMap := map[];
    }

    // The insertion of the concurrent map: says whether the key was new, and leaves an old entry alone.
    method Insert(key: K) returns (inserted: bool)
      modifies this
      ensures inserted == (key !in old(hashMap))
      ensures hashMap == if inserted then old(hashMap)[key := 0] else old(hashMap)
    {
      inserted := key !in hashMap;
      if inserted {
        hashMap := hashMap[key := 0];
      }
    }

    method TryLock(key: K) returns (ok: bool)
      modifies this
      ensures ok == (key !in old(hashMap))
      ensures hashMap == if ok then old(hashMap)[key := 0] else old(hashMap)
    {
      ok := Insert(key);
    }

    // unlock: erasing a key that is not there is not an error.
    method Unlock(key: K)
      modifies this
      ensures hashMap == old(hashMap) - {key}
    {
      hashMap := hashMap - {key};
    }

    // lockBatch: all keys, or the position of the first that cannot be had and a map as it was.
    method LockBatch(keys: seq<K>) returns (curr: nat, ok: bool)
      modifies this
      ensures ok <==> Distinct(keys) && NoneHeld(old(hashMap).Keys, keys)
      ensures ok ==> curr == |keys| && hashMap == Inserted(old(hashMap), keys)
      ensures !ok ==> curr < |keys| && Conflict(old(hashMap).Keys, keys, curr)
      ensures !ok ==> forall j :: 0 <= j < curr ==> !Conflict(old(hashMap).Keys, keys, j)
      ensures !ok ==> hashMap == old(hashMap)
    {
      curr := 0;
      while curr != |keys|
        invariant curr <= |keys|
        invariant forall j :: 0 <= j < curr ==> !Conflict(old(hashMap).Keys, keys, j)
        invariant hashMap == Inserted(old(hashMap), keys[..curr])
        decreases |keys| - curr
      {
        var inserted := Insert(keys[curr]);
        if !inserted {
          NoConflict(old(hashMap).Keys, keys);
          assert Conflict(old(hashMap).Keys, keys, curr);
          UnlockBatch(keys, 0, curr);
          RollbackRestores(old(hashMap), keys, curr);
          return curr, false;
        }
        InsertOneMore(old(hashMap), keys, curr);
        curr := curr + 1;
      }
      NoConflict(old(hashMap).Keys, keys);
      assert keys[..curr] == keys;
      return curr, true;
    }

    // unlockBatch on the range from begin to end.
    method UnlockBatch(keys: seq<K>, begin: nat, end: nat)
      requires begin <= end <= |keys|
      modifies this
      ensures hashMap == Erased(old(hashMap), keys[begin..end])
    {
      var i := begin;
      while i != end
        invariant begin <= i <= end
        invariant hashMap == Erased(old(hashMap), keys[begin..i])
        decreases end - i
      {
        EraseOneMore(old(hashMap), keys, begin, i);
        Unlock(keys[i]);
        i := i + 1;
      }
    }
  }
}
