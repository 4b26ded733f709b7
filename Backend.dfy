/**
 The backend LRUcache: a key-to-node map and a list of keys, head first. A hit
 moves its key to the head, but a new key is appended at the BACK of the list,
 and the entry removed when the list grows past the capacity is also the back
 one, so a new key that overflows the cache is dropped again at once.
 */
module Backend {
  import opened Recency

  /** moveToHead: the key goes to the head; the other keys keep their order and the map is untouched. */
  function MoveToHeadSpec<V>(s: Snapshot<V>, key: Key): (t: Snapshot<V>)
    requires s.Valid() && key in s.values
    ensures t.Valid() && t.capacity == s.capacity && t.values == s.values
    ensures t.order[0] == key && Without(t.order, key) == Without(s.order, key)
  {
    s.(order := MoveToFront(s.order, key))
  }

  /** moveToHead only reorders the list: it is a permutation of the old one, of the same length. */
  lemma MoveToHeadPermutes<V>(s: Snapshot<V>, key: Key)
    requires s.Valid() && key in s.values
    ensures multiset(MoveToHeadSpec(s, key).order) == multiset(s.order)
    ensures |MoveToHeadSpec(s, key).order| == |s.order|
  {
    MoveToFrontPermutes(s.order, key);
  }

  /** Get: a hit moves the key to the head and yields its value; a miss changes nothing. */
  function GetSpec<V>(s: Snapshot<V>, key: Key): (res: (Snapshot<V>, Option<V>))
    requires s.Valid()
    ensures res.0.Valid() && res.0.capacity == s.capacity && res.0.values == s.values
    ensures key !in s.values ==> res.1 == None && res.0 == s
    ensures key in s.values ==>
      && res.1 == Some(s.values[key])
      && res.0.order[0] == key
      && Without(res.0.order, key) == Without(s.order, key)
  {
    if key in s.values then (MoveToHeadSpec(s, key), Some(s.values[key])) else (s, None)
  }

  /**
   removeLeastRecentlyUsed: only when the list is longer than the capacity, the
   back key leaves the list and the map; otherwise nothing changes.
   */
  function RemoveLeastRecentlyUsedSpec<V>(s: Snapshot<V>): (t: Snapshot<V>)
    requires s.Valid()
    ensures t.Valid() && t.capacity == s.capacity
    ensures |s.order| <= s.capacity || s.order == [] ==> t == s
    ensures |s.order| > s.capacity && s.order != [] ==>
      var back := s.order[|s.order| - 1];
      t.order + [back] == s.order && t.values == s.values - {back}
  {
    if |s.order| > s.capacity && s.order != [] then DropBack(s) else s
  }

  /**
   Set: an existing key gets the new value and moves to the head; a new key is
   stored and appended at the back, then removeLeastRecentlyUsed runs.
   */
  function SetSpec<V>(s: Snapshot<V>, key: Key, value: V): (t: Snapshot<V>)
    requires s.Valid()
    ensures t.Valid() && t.capacity == s.capacity
    ensures key in s.values ==> key in t.values && t.values[key] == value && t.order[0] == key
  {
    if key in s.values then
      MoveToHeadSpec(s.(values := s.values[key := value]), key)
    else
      RemoveLeastRecentlyUsedSpec(PushBack(s, key, value))
  }

  /** Set of a cached key overwrites its value and moves it to the head; nothing is removed. */
  lemma SetOverwrites<V>(s: Snapshot<V>, key: Key, value: V)
    requires s.Valid() && key in s.values
    ensures var t := SetSpec(s, key, value);
      && t.values == s.values[key := value]
      && multiset(t.order) == multiset(s.order)
      && Without(t.order, key) == Without(s.order, key)
  {
    MoveToFrontPermutes(s.order, key);
  }

  /** Set of a new key below capacity appends it at the back; nothing is removed. */
  lemma SetAppendsBelowCapacity<V>(s: Snapshot<V>, key: Key, value: V)
    requires s.Valid() && key !in s.values && |s.order| < s.capacity
    ensures var t := SetSpec(s, key, value);
      t.values == s.values[key := value] && t.order == s.order + [key]
  {
  }

  /** Set of a new key at or above capacity appends it and removes it again: nothing changes. */
  lemma SetIntoFullCacheIsNoOp<V>(s: Snapshot<V>, key: Key, value: V)
    requires s.Valid() && key !in s.values && |s.order| >= s.capacity
    ensures SetSpec(s, key, value) == s
  {
    var u := PushBack(s, key, value);
    assert u.order[|u.order| - 1] == key;
    assert u.values - {key} == s.values;
  }

  /** If the list is within the capacity before a Set, it still is afterwards. */
  lemma SetKeepsCapacity<V>(s: Snapshot<V>, key: Key, value: V)
    requires s.Valid() && |s.order| <= s.capacity
    ensures |SetSpec(s, key, value).order| <= s.capacity
  {
    if key in s.values {
      MoveToHeadPermutes(s.(values := s.values[key := value]), key);
    } else if |s.order| < s.capacity {
      SetAppendsBelowCapacity(s, key, value);
    } else {
      SetIntoFullCacheIsNoOp(s, key, value);
    }
  }

  /** With a negative capacity every new key is removed at once, so the list stays empty. */
  lemma SetWithoutCapacity<V>(s: Snapshot<V>, key: Key, value: V)
    requires s.Valid() && s.capacity < 0 && s.order == []
    ensures SetSpec(s, key, value).order == []
  {
    SetIntoFullCacheIsNoOp(s, key, value);
  }

  /** A Set of a new key into a full cache is lost: the Get that follows misses it. */
  lemma SetIntoFullCacheIsLost<V>(s: Snapshot<V>, key: Key, value: V)
    requires s.Valid() && key !in s.values && |s.order| >= s.capacity
    ensures GetSpec(SetSpec(s, key, value), key).1 == None
  {
    SetIntoFullCacheIsNoOp(s, key, value);
  }

  /** Below the capacity, or for a key already cached, the Get that follows a Set sees its value. */
  lemma GetAfterSet<V>(s: Snapshot<V>, key: Key, value: V)
    requires s.Valid() && (key in s.values || |s.order| < s.capacity)
    ensures GetSpec(SetSpec(s, key, value), key).1 == Some(value)
  {
    if key !in s.values {
      SetAppendsBelowCapacity(s, key, value);
    }
  }

  /** One client call applied to the cache (each module folds its own step functions; the shape is shared). */
  function Apply<V>(s: Snapshot<V>, op: Op<V>): (t: Snapshot<V>)
    requires s.Valid()
    ensures t.Valid() && t.capacity == s.capacity
  {
    match op
    case GetOp(k) => GetSpec(s, k).0
    case SetOp(k, v) => SetSpec(s, k, v)
  }

  /** A sequence of client calls applied in order. */
  function Run<V>(s: Snapshot<V>, ops: seq<Op<V>>): (t: Snapshot<V>)
    requires s.Valid()
    ensures t.Valid() && t.capacity == s.capacity
  {
    if ops == [] then s else Apply(Run(s, ops[..|ops| - 1]), ops[|ops| - 1])
  }

  /** One call keeps the list within the capacity, or empty when the capacity is negative. */
  lemma ApplyWithinCapacity<V>(s: Snapshot<V>, op: Op<V>)
    requires s.Valid() && |s.order| <= if s.capacity < 0 then 0 else s.capacity
    ensures var t := Apply(s, op); |t.order| <= if t.capacity < 0 then 0 else t.capacity
  {
    match op
    case GetOp(k) =>
      if k in s.values {
        MoveToHeadPermutes(s, k);
      }
    case SetOp(k, v) =>
      if s.capacity < 0 {
        SetWithoutCapacity(s, k, v);
      } else {
        SetKeepsCapacity(s, k, v);
      }
  }

  /** From a new cache, no sequence of calls takes the list past the capacity (past 0 if it is negative). */
  lemma {:induction false} RunWithinCapacity<V>(capacity: int, ops: seq<Op<V>>)
    ensures |Run(Empty(capacity), ops).order| <= if capacity < 0 then 0 else capacity
  {
    if ops != [] {
      RunWithinCapacity(capacity, ops[..|ops| - 1]);
      ApplyWithinCapacity(Run(Empty(capacity), ops[..|ops| - 1]), ops[|ops| - 1]);
    }
  }

  /** Set(keys[0], vals[0]), Set(keys[1], vals[1]), ... applied in order, with this module's `SetSpec`. */
  function SetAll<V>(s: Snapshot<V>, keys: seq<Key>, vals: seq<V>): (t: Snapshot<V>)
    requires s.Valid() && |keys| == |vals|
    ensures t.Valid() && t.capacity == s.capacity
  {
    if keys == [] then s
    else
      var n := |keys| - 1;
      SetSpec(SetAll(s, keys[..n], vals[..n]), keys[n], vals[n])
  }

  /** Setting the first n keys is setting the first n - 1 and then the n-th. */
  lemma SetAllLast<V>(s: Snapshot<V>, keys: seq<Key>, vals: seq<V>, n: nat)
    requires s.Valid() && 0 < n <= |keys| == |vals|
    ensures SetAll(s, keys[..n], vals[..n])
      == SetSpec(SetAll(s, keys[..n - 1], vals[..n - 1]), keys[n - 1], vals[n - 1])
  {
    assert keys[..n][..n - 1] == keys[..n - 1];
    assert vals[..n][..n - 1] == vals[..n - 1];
  }

  /** The first `n` keys were Set in order and none removed: the list holds them oldest first. */
  ghost predicate Queued<V>(s: Snapshot<V>, keys: seq<Key>, vals: seq<V>, n: nat)
    requires n <= |keys| == |vals|
  {
    && s.order == keys[..n]
    && (forall i :: 0 <= i < n ==> keys[i] in s.values && s.values[keys[i]] == vals[i])
  }

  /** The next of the distinct keys is not cached yet, and the list holds the n earlier ones. */
  lemma QueuedFresh<V>(s: Snapshot<V>, keys: seq<Key>, vals: seq<V>, n: nat)
    requires s.Valid() && Distinct(keys) && n < |keys| == |vals| && Queued(s, keys, vals, n)
    ensures keys[n] !in s.values && |s.order| == n
  {
    forall j | 0 <= j < n ensures s.order[j] != keys[n] {
      assert s.order[j] == keys[j];
    }
  }

  /** Appending the next key and its value to a queue of the first n keys queues the first n + 1. */
  lemma QueuedAppend<V>(s: Snapshot<V>, t: Snapshot<V>, keys: seq<Key>, vals: seq<V>, n: nat)
    requires n < |keys| == |vals| && Queued(s, keys, vals, n) && keys[n] !in s.values
    requires t.order == s.order + [keys[n]] && t.values == s.values[keys[n] := vals[n]]
    ensures Queued(t, keys, vals, n + 1)
  {
    assert keys[..n + 1] == keys[..n] + [keys[n]];
  }

  /** Below capacity the next distinct key goes to the back and nothing is removed. */
  lemma QueuedStep<V>(s: Snapshot<V>, keys: seq<Key>, vals: seq<V>, n: nat)
    requires s.Valid() && Distinct(keys) && n < |keys| == |vals| && Queued(s, keys, vals, n)
    requires n < s.capacity
    ensures Queued(SetSpec(s, keys[n], vals[n]), keys, vals, n + 1)
  {
    QueuedFresh(s, keys, vals, n);
    SetAppendsBelowCapacity(s, keys[n], vals[n]);
    QueuedAppend(s, SetSpec(s, keys[n], vals[n]), keys, vals, n);
  }

  /** Up to `capacity` distinct Sets on a fresh cache remove nothing and queue up oldest first. */
  lemma {:induction false} FillFromEmpty<V>(capacity: int, keys: seq<Key>, vals: seq<V>, n: nat)
    requires |keys| == |vals| && Distinct(keys) && n <= |keys| && n <= capacity
    ensures Queued(SetAll(Empty(capacity), keys[..n], vals[..n]), keys, vals, n)
  {
    if n > 0 {
      FillFromEmpty(capacity, keys, vals, n - 1);
      SetAllLast(Empty(capacity), keys, vals, n);
      QueuedStep(SetAll(Empty(capacity), keys[..n - 1], vals[..n - 1]), keys, vals, n - 1);
    }
  }

  /** A full queue of the first n distinct keys keeps them all and loses the next key. */
  lemma QueuedFullDropsNext<V>(s: Snapshot<V>, keys: seq<Key>, vals: seq<V>)
    requires |keys| == |vals| >= 2 && Distinct(keys)
    requires s.Valid() && s.capacity == |keys| - 1 && Queued(s, keys, vals, |keys| - 1)
    ensures var t := SetSpec(s, keys[|keys| - 1], vals[|keys| - 1]);
      && keys[|keys| - 1] !in t.values
      && forall i :: 0 <= i < |keys| - 1 ==> keys[i] in t.values && t.values[keys[i]] == vals[i]
  {
    var n := |keys| - 1;
    QueuedFresh(s, keys, vals, n);
    SetIntoFullCacheIsNoOp(s, keys[n], vals[n]);
  }

  /**
   With capacity N, N + 1 distinct Sets and no Get keep the first N keys and
   lose the last one: the newest key, not the oldest, is the one removed.
   */
  lemma DistinctSetsDropNewest<V>(keys: seq<Key>, vals: seq<V>)
    requires |keys| == |vals| >= 2 && Distinct(keys)
    ensures var t := SetAll(Empty(|keys| - 1), keys, vals);
      && keys[|keys| - 1] !in t.values
      && forall i :: 0 <= i < |keys| - 1 ==> keys[i] in t.values && t.values[keys[i]] == vals[i]
  {
    var n := |keys| - 1;
    FillFromEmpty(n, keys, vals, n);
    QueuedFullDropsNext(SetAll(Empty(n), keys[..n], vals[..n]), keys, vals);
  }

  /** The capacity-2 scenario below after Set A, Set B: B behind A. */
  lemma RefreshSetTwo<V>(a: Key, b: Key, va: V, vb: V)
    requires a != b
    ensures SetSpec(SetSpec(Empty(2), a, va), b, vb) == Snapshot(2, [a, b], map[a := va, b := vb])
  {
    var s1 := SetSpec(Empty(2), a, va);
    assert s1 == Snapshot(2, [a], map[a := va]);
  }

  /** ... then Get A: A is already at the head. */
  lemma RefreshGet<V>(a: Key, b: Key, va: V, vb: V)
    requires a != b
    ensures GetSpec(Snapshot(2, [a, b], map[a := va, b := vb]), a).0
      == Snapshot(2, [a, b], map[a := va, b := vb])
  {
    assert Without([a, b], a) == [b];
  }

  /** ... then Set C: C is appended and removed again. */
  lemma RefreshSetThird<V>(a: Key, b: Key, c: Key, va: V, vb: V, vc: V)
    requires a != b && b != c && a != c
    ensures SetSpec(Snapshot(2, [a, b], map[a := va, b := vb]), c, vc).values == map[a := va, b := vb]
  {
    var s3 := Snapshot(2, [a, b], map[a := va, b := vb]);
    assert s3.Valid();
    SetIntoFullCacheIsNoOp(s3, c, vc);
  }

  /** With capacity 2: Set A, Set B, Get A, Set C keeps A and B and loses C. */
  lemma SetPastCapacityDropsNewKey<V>(a: Key, b: Key, c: Key, va: V, vb: V, vc: V)
    requires a != b && b != c && a != c
    ensures var afterGet := GetSpec(SetSpec(SetSpec(Empty(2), a, va), b, vb), a).0;
      SetSpec(afterGet, c, vc).values == map[a := va, b := vb]
  {
    RefreshSetTwo(a, b, va, vb);
    RefreshGet(a, b, va, vb);
    RefreshSetThird(a, b, c, va, vb, vc);
  }

  /**
   The list is not a recency order: after Set A, Set B the more recently set B
   sits at the back, where removal takes from.
   */
  lemma NewKeysAreNotMostRecent<V>(capacity: int, a: Key, b: Key, va: V, vb: V)
    requires a != b && capacity >= 2
    ensures var t := SetSpec(SetSpec(Empty(capacity), a, va), b, vb);
      && t.order == [a, b]
      && !RecencyOrdered(t.order, [a, b])
  {
    var s1 := SetSpec(Empty(capacity), a, va);
    SetAppendsBelowCapacity(Empty(capacity), a, va);
    SetAppendsBelowCapacity(s1, b, vb);
    assert LastTouch([a, b], a) == 0 by { assert [a, b][..1] == [a]; }
    assert LastTouch([a, b], b) == 1;
  }

  /** The backend cache object: its capacity, its map and its list of keys. */
  class LRUcache<V> {
    const capacity: int
    var cache: map<Key, V>
    var list: seq<Key>

    /** The cache's state as a value. */
    function Model(): Snapshot<V>
      reads this
    {
      Snapshot(capacity, list, cache)
    }

    ghost predicate Valid()
      reads this
    {
      Model().Valid()
    }

    /** NewLRUcache, without its cleanup ticker and loop. */
    constructor (capacity: int)
      ensures Valid() && Model() == Empty(capacity)
    {
      this.capacity := capacity;
      cache := map[];
      list := [];
    }

    method Get(key: Key) returns (r: Option<V>)
      requires Valid()
      modifies this
      ensures Valid()
      ensures (Model(), r) == GetSpec(old(Model()), key)
    {
      if key !in cache {
        return None;
      }
      MoveToHead(key);
      r := Some(cache[key]);
    }

    method Set(key: Key, value: V)
      requires Valid()
      modifies this
      ensures Valid()
      ensures Model() == SetSpec(old(Model()), key, value)
    {
      if key in cache {
        cache := cache[key := value];
        MoveToHead(key);
        return;
      }
      cache := cache[key := value];
      list := list + [key];
      RemoveLeastRecentlyUsed();
    }

    method RemoveLeastRecentlyUsed()
      requires Valid()
      modifies this
      ensures Valid()
      ensures Model() == RemoveLeastRecentlyUsedSpec(old(Model()))
    {
      if |list| > capacity && list != [] {
        var oldest := list[|list| - 1];
        list := list[..|list| - 1];
        cache := cache - {oldest};
      }
    }

    method MoveToHead(key: Key)
      requires Valid() && key in cache
      modifies this
      ensures Valid()
      ensures Model() == MoveToHeadSpec(old(Model()), key)
    {
      list := [key] + Without(list, key);
    }
  }
}
