/**
 The bookkeeping both LRU caches share: a recency order of keys (front = most
 recently used, back = least recently used) kept in step with a key-to-value
 map, and the history of touched keys against which a recency order is judged.
 */
module Recency {

  type Key = string

  datatype Option<T> = None | Some(value: T)

  /** No key occurs twice in `s`. */
  predicate Distinct(s: seq<Key>) {
    forall i, j :: 0 <= i < j < |s| ==> s[i] != s[j]
  }

  /** `s` with every occurrence of `k` taken out, the other keys in their order. */
  function Without(s: seq<Key>, k: Key): (r: seq<Key>)
    ensures forall x :: x in r <==> x in s && x != k
    ensures Distinct(s) ==> Distinct(r)
    ensures k !in s ==> r == s
  {
    if s == [] then []
    else if s[0] == k then Without(s[1..], k)
    else
      var r := [s[0]] + Without(s[1..], k);
      assert Distinct(s) ==> s[0] !in s[1..] && Distinct(s[1..]);
      assert Distinct(s) ==> Distinct(r) by {
        if Distinct(s) {
          forall i, j | 0 <= i < j < |r| ensures r[i] != r[j] {
            if i == 0 { assert r[j] in Without(s[1..], k); }
          }
        }
      }
      r
  }

  /** Taking `k` out drops all its copies and keeps every other key's count. */
  lemma {:induction false} WithoutCounts(s: seq<Key>, k: Key)
    ensures multiset(Without(s, k)) == multiset(s)[k := 0]
  {
    if s != [] {
      assert s == [s[0]] + s[1..];
      WithoutCounts(s[1..], k);
    }
  }

  /** A key that is in a duplicate-free order occurs in it exactly once. */
  lemma {:induction false} OccursOnce(s: seq<Key>, k: Key)
    requires Distinct(s) && k in s
    ensures multiset(s)[k] == 1
  {
    assert s == [s[0]] + s[1..];
    if s[0] == k {
      assert k !in s[1..];
    } else {
      OccursOnce(s[1..], k);
    }
  }

  /** Moves `k` to the front: the list's MoveToFront, or Remove followed by PushFront. */
  function MoveToFront(s: seq<Key>, k: Key): (r: seq<Key>)
    requires k in s
    ensures |r| > 0 && r[0] == k
    ensures Without(r, k) == Without(s, k)
    ensures forall x :: x in r <==> x in s
    ensures Distinct(s) ==> Distinct(r)
  {
    var r := [k] + Without(s, k);
    assert r == [r[0]] + r[1..];
    r
  }

  /** On a duplicate-free order, moving a key to the front permutes the order. */
  lemma MoveToFrontPermutes(s: seq<Key>, k: Key)
    requires Distinct(s) && k in s
    ensures multiset(MoveToFront(s, k)) == multiset(s) && |MoveToFront(s, k)| == |s|
  {
    WithoutCounts(s, k);
    OccursOnce(s, k);
  }

  /** Both caches' state, seen as values: the capacity, the recency order and the entries. */
  datatype Snapshot<V> = Snapshot(capacity: int, order: seq<Key>, values: map<Key, V>)
  {
    /** Every cached key occurs in the order exactly once, and the order holds nothing else. */
    ghost predicate Valid() {
      Distinct(order) && forall k :: k in values <==> k in order
    }
  }

  /** A freshly constructed cache. */
  function Empty<V>(capacity: int): (s: Snapshot<V>)
    ensures s.Valid() && s.capacity == capacity && |s.values| == 0 && |s.order| == 0
  {
    Snapshot(capacity, [], map[])
  }

  lemma {:induction false} DistinctCard(s: seq<Key>)
    requires Distinct(s)
    ensures |set x | x in s| == |s|
  {
    if s != [] {
      assert s == [s[0]] + s[1..];
      DistinctCard(s[1..]);
      assert (set x | x in s) == {s[0]} + (set x | x in s[1..]);
    }
  }

  /** In a valid snapshot the map and the order have the same length. */
  lemma SizesAgree<V>(s: Snapshot<V>)
    requires s.Valid()
    ensures |s.values| == |s.order|
  {
    DistinctCard(s.order);
    assert s.values.Keys == set x | x in s.order;
  }

  /** The snapshot with its back (least recently used) key taken out of both the order and the map. */
  function DropBack<V>(s: Snapshot<V>): (t: Snapshot<V>)
    requires s.Valid() && s.order != []
    ensures t.Valid() && t.capacity == s.capacity
    ensures var back := s.order[|s.order| - 1];
      t.order + [back] == s.order && t.values == s.values - {back}
  {
    var n := |s.order|;
    var back := s.order[n - 1];
    var t := Snapshot(s.capacity, s.order[..n - 1], s.values - {back});
    assert s.order == t.order + [back];
    assert forall k :: k in t.order <==> k in s.order && k != back by {
      forall k | k in s.order && k != back ensures k in t.order {
        var i :| 0 <= i < n && s.order[i] == k;
        assert t.order[i] == k;
      }
    }
    t
  }

  /** The snapshot with a new key added at the front of the order and to the map. */
  function PushFront<V>(s: Snapshot<V>, key: Key, value: V): (t: Snapshot<V>)
    requires s.Valid() && key !in s.values
    ensures t.Valid() && t.capacity == s.capacity
    ensures t.order == [key] + s.order && t.values == s.values[key := value]
    ensures |t.values| == |s.values| + 1
  {
    Snapshot(s.capacity, [key] + s.order, s.values[key := value])
  }

  /** The snapshot with a new key added at the back of the order and to the map. */
  function PushBack<V>(s: Snapshot<V>, key: Key, value: V): (t: Snapshot<V>)
    requires s.Valid() && key !in s.values
    ensures t.Valid() && t.capacity == s.capacity
    ensures t.order == s.order + [key] && t.values == s.values[key := value]
    ensures |t.values| == |s.values| + 1
  {
    Snapshot(s.capacity, s.order + [key], s.values[key := value])
  }

  /** One client call on a cache. */
  datatype Op<V> = GetOp(key: Key) | SetOp(key: Key, value: V)

  /** The keys named by a sequence of calls, in call order. */
  function Touched<V>(ops: seq<Op<V>>): (h: seq<Key>)
    ensures |h| == |ops| && forall i :: 0 <= i < |ops| ==> h[i] == ops[i].key
  {
    if ops == [] then [] else Touched(ops[..|ops| - 1]) + [ops[|ops| - 1].key]
  }

  /** The position of the last touch of `k` in the history `h`, or -1 if it was never touched. */
  function LastTouch(h: seq<Key>, k: Key): (r: int)
    ensures -1 <= r < |h|
    ensures r >= 0 ==> h[r] == k
    ensures forall j :: r < j < |h| ==> h[j] != k
  {
    if h == [] then -1
    else if h[|h| - 1] == k then |h| - 1
    else LastTouch(h[..|h| - 1], k)
  }

  /** Keys closer to the front were touched more recently. */
  ghost predicate RecencyOrdered(order: seq<Key>, h: seq<Key>) {
    forall i, j :: 0 <= i < j < |order| ==> LastTouch(h, order[i]) > LastTouch(h, order[j])
  }

  /** Touching a key outside the order leaves its recency order intact. */
  lemma TouchOutside(order: seq<Key>, h: seq<Key>, x: Key)
    requires RecencyOrdered(order, h) && x !in order
    ensures RecencyOrdered(order, h + [x])
  {
    forall y | y != x
      ensures LastTouch(h + [x], y) == LastTouch(h, y)
    {
      assert (h + [x])[..|h|] == h;
    }
  }

  /** Taking a key out of a recency order leaves it a recency order. */
  lemma {:induction false} WithoutKeepsOrder(order: seq<Key>, h: seq<Key>, k: Key)
    requires RecencyOrdered(order, h)
    ensures RecencyOrdered(Without(order, k), h)
  {
    if order != [] {
      var rest := Without(order[1..], k);
      WithoutKeepsOrder(order[1..], h, k);
      if order[0] != k {
        forall j | 0 <= j < |rest|
          ensures LastTouch(h, order[0]) > LastTouch(h, rest[j])
        {
          assert rest[j] in order[1..];
          var m :| 0 <= m < |order[1..]| && order[1..][m] == rest[j];
          assert order[m + 1] == rest[j];
        }
        assert Without(order, k) == [order[0]] + rest;
      }
    }
  }

  /** Putting the key just touched at the front of a recency order keeps it one. */
  lemma TouchToFront(rest: seq<Key>, h: seq<Key>, x: Key)
    requires RecencyOrdered(rest, h) && x !in rest
    ensures RecencyOrdered([x] + rest, h + [x])
  {
    TouchOutside(rest, h, x);
    assert LastTouch(h + [x], x) == |h|;
  }
}
