/**
 The frontend LRUCache: a recency list (`eviction`, front = most recently used)
 and a map from key to entry, where new keys go to the front and, when the map
 is full, the back entry is evicted first.
 */
module Frontend {
  import opened Recency

  /** Get: a hit moves the key to the front and yields its value; a miss changes nothing. */
  function GetSpec<V>(s: Snapshot<V>, key: Key): (res: (Snapshot<V>, Option<V>))
    requires s.Valid()
    ensures res.0.Valid() && res.0.capacity == s.capacity && res.0.values == s.values
    ensures key !in s.values ==> res.1 == None && res.0 == s
    ensures key in s.values ==>
      && res.1 == Some(s.values[key])
      && res.0.order[0] == key
      && Without(res.0.order, key) == Without(s.order, key)
  {
    if key in s.values then (s.(order := MoveToFront(s.order, key)), Some(s.values[key]))
    else (s, None)
  }

  /** A hit only reorders the list: it is a permutation of the old one. */
  lemma GetPermutes<V>(s: Snapshot<V>, key: Key)
    requires s.Valid() && key in s.values
    ensures multiset(GetSpec(s, key).0.order) == multiset(s.order)
  {
    MoveToFrontPermutes(s.order, key);
  }

  /** evictLRU: drops the back key from the order and from the map; on an empty cache it does nothing. */
  function EvictLRUSpec<V>(s: Snapshot<V>): (t: Snapshot<V>)
    requires s.Valid()
    ensures t.Valid() && t.capacity == s.capacity
    ensures s.order == [] ==> t == s
    ensures s.order != [] ==>
      var lru := s.order[|s.order| - 1];
      && t.order + [lru] == s.order
      && t.values.Keys == s.values.Keys - {lru}
      && (forall k :: k in t.values ==> t.values[k] == s.values[k])
  {
    if s.order == [] then s else DropBack(s)
  }

  /**
   Set: an existing key gets the new value and moves to the front; a new key
   first makes room by evicting the back entry when the map holds `capacity` or
   more entries, then goes to the front.
   */
  function SetSpec<V>(s: Snapshot<V>, key: Key, value: V): (t: Snapshot<V>)
    requires s.Valid()
    ensures t.Valid() && t.capacity == s.capacity
    ensures key in t.values && t.values[key] == value && t.order[0] == key
  {
    if key in s.values then
      Snapshot(s.capacity, MoveToFront(s.order, key), s.values[key := value])
    else if |s.values| >= s.capacity then
      PushFront(EvictLRUSpec(s), key, value)
    else
      PushFront(s, key, value)
  }

  /** Set of a cached key overwrites its value and moves it to the front; nothing is evicted. */
  lemma SetOverwrites<V>(s: Snapshot<V>, key: Key, value: V)
    requires s.Valid() && key in s.values
    ensures var t := SetSpec(s, key, value);
      && t.values == s.values[key := value]
      && multiset(t.order) == multiset(s.order)
      && Without(t.order, key) == Without(s.order, key)
  {
    MoveToFrontPermutes(s.order, key);
  }

  /** Set of a new key below capacity pushes it at the front; nothing is evicted. */
  lemma SetInsertsBelowCapacity<V>(s: Snapshot<V>, key: Key, value: V)
    requires s.Valid() && key !in s.values && |s.values| < s.capacity
    ensures var t := SetSpec(s, key, value);
      t.values == s.values[key := value] && t.order == [key] + s.order
  {
  }

  /** Set of a new key at or above capacity evicts the back key, then pushes the new key at the front. */
  lemma SetEvictsAtCapacity<V>(s: Snapshot<V>, key: Key, value: V)
    requires s.Valid() && key !in s.values && |s.values| >= s.capacity && s.order != []
    ensures var t := SetSpec(s, key, value); var lru := s.order[|s.order| - 1];
      && t.values == (s.values - {lru})[key := value]
      && t.order == [key] + s.order[..|s.order| - 1]
  {
    var lru := s.order[|s.order| - 1];
    var u := EvictLRUSpec(s);
    assert u.order == s.order[..|s.order| - 1];
    assert u.values == s.values - {lru};
  }

  /** With a positive capacity, Set never takes the cache above it. */
  lemma SetKeepsCapacity<V>(s: Snapshot<V>, key: Key, value: V)
    requires s.Valid() && s.capacity >= 1 && |s.values| <= s.capacity
    ensures |SetSpec(s, key, value).values| <= s.capacity
  {
    SizesAgree(s);
    if key !in s.values && |s.values| >= s.capacity {
      SizesAgree(EvictLRUSpec(s));
    }
  }

  /** With capacity 0 or less, eviction still leaves room for the new key: one entry stays. */
  lemma SetWithoutCapacity<V>(s: Snapshot<V>, key: Key, value: V)
    requires s.Valid() && s.capacity < 1 && |s.values| <= 1
    ensures |SetSpec(s, key, value).values| == 1
  {
    SizesAgree(s);
    if key !in s.values && s.order != [] {
      SizesAgree(EvictLRUSpec(s));
    }
  }

  /** What a later Get sees right after a Set. */
  lemma GetAfterSet<V>(s: Snapshot<V>, key: Key, value: V)
    requires s.Valid()
    ensures GetSpec(SetSpec(s, key, value), key).1 == Some(value)
  {
  }

  /** One client call applied to the cache (each module folds its own step functions; the shape is shared). */
  function Apply<V>(s: Snapshot<V>, op: Op<V>): (t: Snapshot<V>)
    requires s.Valid()
    ensures t.Valid() && t.capacity == s.capacity
  {
    match op
    case GetOp(k) => GetSpec(s, k).0
    case SetOp(k, v) => SetSpec(s, k, v)
  }

  /** A sequence of client calls applied in order. */
  function Run<V>(s: Snapshot<V>, ops: seq<Op<V>>): (t: Snapshot<V>)
    requires s.Valid()
    ensures t.Valid() && t.capacity == s.capacity
  {
    if ops == [] then s else Apply(Run(s, ops[..|ops| - 1]), ops[|ops| - 1])
  }

  /** One call keeps the map within the capacity, or within one entry when the capacity is below 1. */
  lemma ApplyWithinCapacity<V>(s: Snapshot<V>, op: Op<V>)
    requires s.Valid() && |s.values| <= if s.capacity < 1 then 1 else s.capacity
    ensures var t := Apply(s, op); |t.values| <= if t.capacity < 1 then 1 else t.capacity
  {
    match op
    case GetOp(k) =>
    case SetOp(k, v) =>
      if s.capacity < 1 {
        SetWithoutCapacity(s, k, v);
      } else {
        SetKeepsCapacity(s, k, v);
      }
  }

  /** From a new cache, no sequence of calls takes the map past the capacity (past 1 if it is below 1). */
  lemma {:induction false} RunWithinCapacity<V>(capacity: int, ops: seq<Op<V>>)
    ensures |Run(Empty(capacity), ops).values| <= if capacity < 1 then 1 else capacity
  {
    if ops != [] {
      RunWithinCapacity(capacity, ops[..|ops| - 1]);
      ApplyWithinCapacity(Run(Empty(capacity), ops[..|ops| - 1]), ops[|ops| - 1]);
    }
  }

  /**
   From a fresh cache, whatever the calls, the eviction list runs from the most
   recently touched key to the least recently touched one.
   */
  lemma {:induction false} RunKeepsRecencyOrder<V>(capacity: int, ops: seq<Op<V>>)
    ensures RecencyOrdered(Run(Empty(capacity), ops).order, Touched(ops))
  {
    if ops != [] {
      var init, op := ops[..|ops| - 1], ops[|ops| - 1];
      var s, h, x := Run(Empty(capacity), init), Touched(init), op.key;
      RunKeepsRecencyOrder(capacity, init);
      assert Touched(ops) == h + [x];
      if x in s.values {
        WithoutKeepsOrder(s.order, h, x);
        TouchToFront(Without(s.order, x), h, x);
        assert Apply(s, op).order == [x] + Without(s.order, x);
      } else if op.GetOp? {
        TouchOutside(s.order, h, x);
      } else if |s.values| >= capacity && s.order != [] {
        TouchToFront(s.order[..|s.order| - 1], h, x);
      } else {
        TouchToFront(s.order, h, x);
      }
    }
  }

  /** The only key a Set can evict is the back of the eviction list. */
  lemma SetEvictsOnlyBack<V>(s: Snapshot<V>, key: Key, value: V)
    requires s.Valid()
    ensures forall k :: k in s.values && k !in SetSpec(s, key, value).values ==>
      s.order != [] && k == s.order[|s.order| - 1]
  {
    if key in s.values {
      SetOverwrites(s, key, value);
    } else if |s.values| >= s.capacity && s.order != [] {
      SetEvictsAtCapacity(s, key, value);
    } else if |s.values| < s.capacity {
      SetInsertsBelowCapacity(s, key, value);
    }
  }

  /** Whatever key a Set evicts is, of all cached keys, the one touched longest ago. */
  lemma EvictsLeastRecentlyTouched<V>(capacity: int, ops: seq<Op<V>>, key: Key, value: V, victim: Key)
    requires victim in Run(Empty(capacity), ops).values
    requires victim !in SetSpec(Run(Empty(capacity), ops), key, value).values
    ensures forall k :: k in Run(Empty(capacity), ops).values && k != victim ==>
      LastTouch(Touched(ops), k) > LastTouch(Touched(ops), victim)
  {
    var s := Run(Empty(capacity), ops);
    RunKeepsRecencyOrder(capacity, ops);
    SetEvictsOnlyBack(s, key, value);
    BackIsOldest(s, Touched(ops));
  }

  /** In a recency-ordered cache the back key was touched before every other cached key. */
  lemma BackIsOldest<V>(s: Snapshot<V>, h: seq<Key>)
    requires s.Valid() && RecencyOrdered(s.order, h) && s.order != []
    ensures forall k :: k in s.values && k != s.order[|s.order| - 1] ==>
      LastTouch(h, k) > LastTouch(h, s.order[|s.order| - 1])
  {
    var n := |s.order|;
    forall k | k in s.values && k != s.order[n - 1]
      ensures LastTouch(h, k) > LastTouch(h, s.order[n - 1])
    {
      var i :| 0 <= i < n && s.order[i] == k;
      assert i < n - 1;
    }
  }

  /** Set(keys[0], vals[0]), Set(keys[1], vals[1]), ... applied in order, with this module's `SetSpec`. */
  function SetAll<V>(s: Snapshot<V>, keys: seq<Key>, vals: seq<V>): (t: Snapshot<V>)
    requires s.Valid() && |keys| == |vals|
    ensures t.Valid() && t.capacity == s.capacity
  {
    if keys == [] then s
    else
      var n := |keys| - 1;
      SetSpec(SetAll(s, keys[..n], vals[..n]), keys[n], vals[n])
  }

  /** Setting the first n keys is setting the first n - 1 and then the n-th. */
  lemma SetAllLast<V>(s: Snapshot<V>, keys: seq<Key>, vals: seq<V>, n: nat)
    requires s.Valid() && 0 < n <= |keys| == |vals|
    ensures SetAll(s, keys[..n], vals[..n])
      == SetSpec(SetAll(s, keys[..n - 1], vals[..n - 1]), keys[n - 1], vals[n - 1])
  {
    assert keys[..n][..n - 1] == keys[..n - 1];
    assert vals[..n][..n - 1] == vals[..n - 1];
  }

  /** The first `n` keys were Set in order and none evicted: the newest is at the front. */
  ghost predicate Stacked<V>(s: Snapshot<V>, keys: seq<Key>, vals: seq<V>, n: nat)
    requires n <= |keys| == |vals|
  {
    && |s.order| == n
    && (forall i :: 0 <= i < n ==> s.order[n - 1 - i] == keys[i])
    && (forall i :: 0 <= i < n ==> keys[i] in s.values && s.values[keys[i]] == vals[i])
  }

  /** The next distinct key goes to the front; below capacity nothing is evicted. */
  lemma StackedStep<V>(s: Snapshot<V>, keys: seq<Key>, vals: seq<V>, n: nat)
    requires s.Valid() && Distinct(keys) && n < |keys| == |vals| && Stacked(s, keys, vals, n)
    ensures keys[n] !in s.values && |s.values| == n
    ensures n < s.capacity ==> Stacked(SetSpec(s, keys[n], vals[n]), keys, vals, n + 1)
  {
    var k := keys[n];
    forall j | 0 <= j < n ensures s.order[j] != k {
      assert s.order[j] == keys[n - 1 - j];
    }
    SizesAgree(s);
    if n < s.capacity {
      SetInsertsBelowCapacity(s, k, vals[n]);
    }
  }

  /** Up to `capacity` distinct Sets on a fresh cache evict nothing and stack up newest first. */
  lemma {:induction false} FillFromEmpty<V>(capacity: int, keys: seq<Key>, vals: seq<V>, n: nat)
    requires |keys| == |vals| && Distinct(keys) && n <= |keys| && n <= capacity
    ensures Stacked(SetAll(Empty(capacity), keys[..n], vals[..n]), keys, vals, n)
  {
    if n > 0 {
      FillFromEmpty(capacity, keys, vals, n - 1);
      SetAllLast(Empty(capacity), keys, vals, n);
      StackedStep(SetAll(Empty(capacity), keys[..n - 1], vals[..n - 1]), keys, vals, n - 1);
    }
  }

  /** A full stack of the first n keys has the first key at the back. */
  lemma StackedBack<V>(s: Snapshot<V>, keys: seq<Key>, vals: seq<V>, n: nat)
    requires 1 <= n <= |keys| == |vals| && Stacked(s, keys, vals, n)
    ensures s.order != [] && s.order[|s.order| - 1] == keys[0]
  {
  }

  /** Once the cache holds its N distinct keys, the next distinct Set evicts the first of them. */
  lemma StackedEvictsFirst<V>(s: Snapshot<V>, keys: seq<Key>, vals: seq<V>)
    requires |keys| == |vals| >= 2 && Distinct(keys)
    requires s.Valid() && s.capacity == |keys| - 1 && Stacked(s, keys, vals, |keys| - 1)
    ensures var t := SetSpec(s, keys[|keys| - 1], vals[|keys| - 1]);
      && keys[0] !in t.values
      && forall i :: 1 <= i < |keys| ==> keys[i] in t.values && t.values[keys[i]] == vals[i]
  {
    var n := |keys| - 1;
    StackedStep(s, keys, vals, n);
    StackedBack(s, keys, vals, n);
    SetEvictsAtCapacity(s, keys[n], vals[n]);
    var t := SetSpec(s, keys[n], vals[n]);
    assert t.values == (s.values - {keys[0]})[keys[n] := vals[n]];
    forall i | 1 <= i < |keys| ensures keys[i] in t.values && t.values[keys[i]] == vals[i] {
      assert keys[i] != keys[0];
    }
  }

  /** With capacity N, N + 1 distinct Sets and no Get evict the first key and only it. */
  lemma DistinctSetsEvictFirst<V>(keys: seq<Key>, vals: seq<V>)
    requires |keys| == |vals| >= 2 && Distinct(keys)
    ensures var t := SetAll(Empty(|keys| - 1), keys, vals);
      && keys[0] !in t.values
      && forall i :: 1 <= i < |keys| ==> keys[i] in t.values && t.values[keys[i]] == vals[i]
  {
    var n := |keys| - 1;
    FillFromEmpty(n, keys, vals, n);
    StackedEvictsFirst(SetAll(Empty(n), keys[..n], vals[..n]), keys, vals);
  }

  /** The capacity-2 scenario below after Set A, Set B: B in front of A. */
  lemma RefreshSetTwo<V>(a: Key, b: Key, va: V, vb: V)
    requires a != b
    ensures SetSpec(SetSpec(Empty(2), a, va), b, vb) == Snapshot(2, [b, a], map[a := va, b := vb])
  {
    var s1 := SetSpec(Empty(2), a, va);
    assert s1 == Snapshot(2, [a], map[a := va]);
  }

  /** ... then Get A: A moves in front of B. */
  lemma RefreshGet<V>(a: Key, b: Key, va: V, vb: V)
    requires a != b
    ensures GetSpec(Snapshot(2, [b, a], map[a := va, b := vb]), a).0
      == Snapshot(2, [a, b], map[a := va, b := vb])
  {
    assert Without([b, a], a) == [b];
  }

  /** ... then Set C: the back key B is evicted. */
  lemma RefreshSetThird<V>(a: Key, b: Key, c: Key, va: V, vb: V, vc: V)
    requires a != b && b != c && a != c
    ensures SetSpec(Snapshot(2, [a, b], map[a := va, b := vb]), c, vc).values == map[a := va, c := vc]
  {
    var s3 := Snapshot(2, [a, b], map[a := va, b := vb]);
    assert s3.Valid();
    SetEvictsAtCapacity(s3, c, vc);
    assert s3.values - {b} == map[a := va];
  }

  /** With capacity 2: Set A, Set B, Get A, Set C evicts B and keeps A, because the Get refreshed A. */
  lemma GetRefreshesRecency<V>(a: Key, b: Key, c: Key, va: V, vb: V, vc: V)
    requires a != b && b != c && a != c
    ensures var afterGet := GetSpec(SetSpec(SetSpec(Empty(2), a, va), b, vb), a).0;
      SetSpec(afterGet, c, vc).values == map[a := va, c := vc]
  {
    RefreshSetTwo(a, b, va, vb);
    RefreshGet(a, b, va, vb);
    RefreshSetThird(a, b, c, va, vb, vc);
  }

  /** The frontend cache object: its capacity, its recency list and its map. */
  class LRUCache<V> {
    const capacity: int
    var eviction: seq<Key>
    var cache: map<Key, V>

    /** The cache's state as a value. */
    function Model(): Snapshot<V>
      reads this
    {
      Snapshot(capacity, eviction, cache)
    }

    ghost predicate Valid()
      reads this
    {
      Model().Valid()
    }

    /** NewLRUCache, without its background ticker. */
    constructor (capacity: int)
      ensures Valid() && Model() == Empty(capacity)
    {
      this.capacity := capacity;
      eviction := [];
      cache := map[];
    }

    method Get(key: Key) returns (r: Option<V>)
      requires Valid()
      modifies this
      ensures Valid()
      ensures (Model(), r) == GetSpec(old(Model()), key)
    {
      if key in cache {
        eviction := MoveToFront(eviction, key);
        r := Some(cache[key]);
      } else {
        r := None;
      }
    }

    method Set(key: Key, value: V)
      requires Valid()
      modifies this
      ensures Valid()
      ensures Model() == SetSpec(old(Model()), key, value)
    {
      if key in cache {
        eviction := MoveToFront(eviction, key);
        cache := cache[key := value];
      } else {
        if |cache| >= capacity {
          EvictLRU();
        }
        ghost var u := Model();
        eviction := [key] + eviction;
        cache := cache[key := value];
        assert Model() == PushFront(u, key, value);
      }
    }

    method EvictLRU()
      requires Valid()
      modifies this
      ensures Valid()
      ensures Model() == EvictLRUSpec(old(Model()))
    {
      if eviction != [] {
        var lru := eviction[|eviction| - 1];
        eviction := eviction[..|eviction| - 1];
        cache := cache - {lru};
      }
    }
  }
}
