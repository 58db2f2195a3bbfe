/** The least-recently-used cache (cache.rs). */
module LruCaches {
  import opened Types

  datatype Cache<K, V> = Cache(entries: map<K, V>, order: seq<K>, capacity: nat)

  datatype Op<K, V> = Get(key: K) | Insert(key: K, value: V) | Clear

  /** The source's `retain(|k| k != key)`. */
  function Without<K(==)>(s: seq<K>, key: K): seq<K> {
    if s == [] then []
    else if s[0] == key then Without(s[1..], key)
    else [s[0]] + Without(s[1..], key)
  }

  function Step<K(==), V>(c: Cache<K, V>, op: Op<K, V>): Cache<K, V> {
    match op
    case Get(key) =>
      if key in c.entries then c.(order := [key] + Without(c.order, key)) else c
    case Insert(key, value) =>
      var evict := |c.entries| >= c.capacity && key !in c.entries && c.order != [];
      var entries := if evict then c.entries - {c.order[|c.order| - 1]} else c.entries;
      var order := if evict then c.order[..|c.order| - 1] else c.order;
      Cache(entries[key := value], [key] + Without(order, key), c.capacity)
    case Clear => Cache(map[], [], c.capacity)
  }

  function Run<K(==), V>(c: Cache<K, V>, ops: seq<Op<K, V>>): Cache<K, V> {
    if ops == [] then c else Step(Run(c, ops[..|ops| - 1]), ops[|ops| - 1])
  }

  function Empty<K, V>(capacity: nat): Cache<K, V> {
    Cache(map[], [], capacity)
  }

  // ----- reference: what a history of operations should leave behind

  function Take<T>(s: seq<T>, n: nat): seq<T> {
    if |s| <= n then s else s[..n]
  }

  /** The distinct elements, each at its first place. */
  function Distinct<K(==)>(s: seq<K>): seq<K> {
    if s == [] then [] else [s[0]] + Without(Distinct(s[1..]), s[0])
  }

  /** The keys hit or inserted since the last clear, newest first, in an ideal cache of `size` keys. */
  function Touches<K(==), V>(ops: seq<Op<K, V>>, size: nat): seq<K> {
    if ops == [] then []
    else
      var before := Touches(ops[..|ops| - 1], size);
      match ops[|ops| - 1]
      case Get(key) => if key in Take(Distinct(before), size) then [key] + before else before
      case Insert(key, _) => [key] + before
      case Clear => []
  }

  /** The value last inserted under `key` since the last clear. */
  function LastValue<K(==), V>(ops: seq<Op<K, V>>, key: K): Option<V> {
    if ops == [] || ops[|ops| - 1].Clear? then None
    else
      var last := ops[|ops| - 1];
      if last.Insert? && last.key == key then Some(last.value) else LastValue(ops[..|ops| - 1], key)
  }

  predicate NoRepeats<K(==)>(s: seq<K>) {
    s == [] || (s[0] !in s[1..] && NoRepeats(s[1..]))
  }

  // ----- sequences without repeats

  lemma {:induction false} WithoutSplits<K>(s: seq<K>, t: seq<K>, key: K)
    ensures Without(s + t, key) == Without(s, key) + Without(t, key)
  {
    if s == [] {
      assert s + t == t;
    } else {
      WithoutSplits(s[1..], t, key);
      assert (s + t)[0] == s[0] && (s + t)[1..] == s[1..] + t;
      var kept, more := Without(s[1..], key), Without(t, key);
      assert [s[0]] + (kept + more) == [s[0]] + kept + more;
    }
  }

  lemma {:induction false} WithoutMember<K>(s: seq<K>, key: K, k: K)
    ensures k in Without(s, key) <==> k in s && k != key
  {
    if s != [] {
      WithoutMember(s[1..], key, k);
      assert s == [s[0]] + s[1..];
    }
  }

  lemma {:induction false} WithoutOf<K>(s: seq<K>, key: K)
    requires NoRepeats(s)
    ensures NoRepeats(Without(s, key))
    ensures if key in s then |Without(s, key)| == |s| - 1 else Without(s, key) == s
  {
    if s != [] {
      WithoutOf(s[1..], key);
      WithoutMember(s[1..], key, s[0]);
      assert s == [s[0]] + s[1..];
      if s[0] != key {
        assert Without(s, key)[1..] == Without(s[1..], key);
      }
    }
  }

  lemma {:induction false} DistinctHasNoRepeats<K>(s: seq<K>)
    ensures NoRepeats(Distinct(s))
  {
    if s != [] {
      DistinctHasNoRepeats(s[1..]);
      WithoutOf(Distinct(s[1..]), s[0]);
      WithoutMember(Distinct(s[1..]), s[0], s[0]);
      assert Distinct(s)[1..] == Without(Distinct(s[1..]), s[0]);
    }
  }

  lemma {:induction false} NoRepeatsSplits<K>(s: seq<K>, t: seq<K>)
    requires NoRepeats(s + t)
    ensures NoRepeats(s) && NoRepeats(t)
    ensures forall k :: k in s ==> k !in t
  {
    if s == [] {
      assert s + t == t;
    } else {
      assert (s + t)[1..] == s[1..] + t;
      NoRepeatsSplits(s[1..], t);
      assert s[0] !in s[1..] + t;
    }
  }

  lemma TakeFront<K>(key: K, s: seq<K>, n: nat)
    requires n > 0
    ensures Take([key] + s, n) == [key] + Take(s, n - 1)
  {
  }

  lemma TakeConcat<K>(s: seq<K>, t: seq<K>, n: nat)
    ensures n <= |s| ==> Take(s + t, n) == Take(s, n)
    ensures |s| <= n && t == [] ==> Take(s + t, n) == s
  {
    if t == [] {
      assert s + t == s;
    }
  }

  lemma TakeSplits<K>(s: seq<K>, n: nat)
    ensures s == Take(s, n) + s[|Take(s, n)|..]
    ensures |s| > n ==> |Take(s, n)| == n
  {
  }

  /** How the first `n` of a list change when one of them moves to the front. */
  lemma HitTakes<K>(d: seq<K>, n: nat, key: K)
    requires NoRepeats(d) && n > 0 && key in Take(d, n)
    ensures Take([key] + Without(d, key), n) == [key] + Without(Take(d, n), key)
  {
    var first := Take(d, n);
    var rest := d[|first|..];
    TakeSplits(d, n);
    NoRepeatsSplits(first, rest);
    WithoutSplits(first, rest, key);
    WithoutOf(first, key);
    TakeFront(key, Without(d, key), n);
    TakeConcat(Without(first, key), Without(rest, key), n - 1);
  }

  /** How the first `n` of a list change when another key comes to the front. */
  lemma MissTakes<K>(d: seq<K>, n: nat, key: K)
    requires NoRepeats(d) && n > 0 && key !in Take(d, n)
    ensures Take([key] + Without(d, key), n) == [key] + Take(Take(d, n), n - 1)
  {
    var first := Take(d, n);
    var rest := d[|first|..];
    TakeSplits(d, n);
    NoRepeatsSplits(first, rest);
    WithoutSplits(first, rest, key);
    WithoutOf(first, key);
    TakeFront(key, Without(d, key), n);
    TakeConcat(first, Without(rest, key), n - 1);
  }

  // ----- refinement

  /** The queue lists exactly the stored keys, once each. */
  ghost predicate HoldsOrder<K(!new), V>(c: Cache<K, V>) {
    && NoRepeats(c.order)
    && |c.order| == |c.entries|
    && forall k :: k in c.entries <==> k in c.order
  }

  /** The cache holds what the reference says, in its order. */
  ghost predicate Agrees<K(!new), V>(c: Cache<K, V>, ops: seq<Op<K, V>>) {
    && c.order == Take(Distinct(Touches(ops, Max(1, c.capacity))), Max(1, c.capacity))
    && HoldsOrder(c)
    && forall k :: k in c.entries ==> LastValue(ops, k) == Some(c.entries[k])
  }

  lemma HitKeepsOrder<K(!new), V>(c: Cache<K, V>, op: Op<K, V>)
    requires HoldsOrder(c) && !op.Clear? && op.key in c.entries
    ensures HoldsOrder(Step(c, op))
  {
    var rest := Without(c.order, op.key);
    WithoutOf(c.order, op.key);
    forall k ensures k in rest <==> k in c.order && k != op.key {
      WithoutMember(c.order, op.key, k);
    }
    assert ([op.key] + rest)[1..] == rest;
  }

  /** Evicting the last key, if there is one. */
  lemma EvictKeepsOrder<K(!new), V>(c: Cache<K, V>)
    requires HoldsOrder(c) && c.order != []
    ensures var n := |c.order| - 1; HoldsOrder(Cache(c.entries - {c.order[n]}, c.order[..n], c.capacity))
  {
    var n := |c.order| - 1;
    var kept, oldest := c.order[..n], c.order[n];
    assert c.order == kept + [oldest];
    NoRepeatsSplits(kept, [oldest]);
    assert oldest in c.order && oldest in [oldest];
    assert (c.entries - {oldest}).Keys == c.entries.Keys - {oldest};
  }

  lemma AppendKeepsOrder<K(!new), V>(c: Cache<K, V>, key: K, value: V)
    requires HoldsOrder(c) && key !in c.entries
    ensures Without(c.order, key) == c.order
    ensures HoldsOrder(Cache(c.entries[key := value], [key] + c.order, c.capacity))
  {
    WithoutOf(c.order, key);
    var order := [key] + c.order;
    assert order[0] == key && order[1..] == c.order;
    assert |c.entries[key := value]| == |c.entries| + 1 by {
      assert c.entries[key := value].Keys == c.entries.Keys + {key};
    }
    forall k ensures k in c.entries[key := value] <==> k in order {
      assert k in order <==> k == key || k in c.order;
    }
  }

  lemma MissKeepsOrder<K(!new), V>(c: Cache<K, V>, op: Op<K, V>)
    requires HoldsOrder(c) && op.Insert? && op.key !in c.entries && |c.order| <= Max(1, c.capacity)
    ensures Step(c, op).order == [op.key] + Take(c.order, Max(1, c.capacity) - 1)
    ensures HoldsOrder(Step(c, op))
    ensures forall k :: k in Step(c, op).entries && k != op.key ==>
      k in c.entries && Step(c, op).entries[k] == c.entries[k]
  {
    if |c.order| == Max(1, c.capacity) {
      EvictKeepsOrder(c);
      var n := |c.order| - 1;
      AppendKeepsOrder(Cache(c.entries - {c.order[n]}, c.order[..n], c.capacity), op.key, op.value);
    } else {
      AppendKeepsOrder(c, op.key, op.value);
    }
  }

  /** Appending a touch to the history moves the key to the front of the distinct keys. */
  lemma TouchIsNewest<K, V>(ops: seq<Op<K, V>>, op: Op<K, V>, size: nat)
    requires op.Insert? || (op.Get? && op.key in Take(Distinct(Touches(ops, size)), size))
    ensures NoRepeats(Distinct(Touches(ops, size)))
    ensures Distinct(Touches(ops + [op], size)) == [op.key] + Without(Distinct(Touches(ops, size)), op.key)
  {
    assert (ops + [op])[..|ops|] == ops;
    assert ([op.key] + Touches(ops, size))[1..] == Touches(ops, size);
    DistinctHasNoRepeats(Touches(ops, size));
  }

  lemma LastValueOf<K, V>(ops: seq<Op<K, V>>, op: Op<K, V>, k: K)
    requires !op.Clear?
    ensures LastValue(ops + [op], k) == if op.Insert? && op.key == k then Some(op.value) else LastValue(ops, k)
  {
    assert (ops + [op])[..|ops|] == ops;
  }

  lemma TouchAgrees<K(!new), V>(c: Cache<K, V>, ops: seq<Op<K, V>>, op: Op<K, V>)
    requires Agrees(c, ops)
    requires op.Insert? || (op.Get? && op.key in c.entries)
    ensures Agrees(Step(c, op), ops + [op])
  {
    var size := Max(1, c.capacity);
    var d := Distinct(Touches(ops, size));
    TouchIsNewest(ops, op, size);
    if op.key in c.entries {
      HitTakes(d, size, op.key);
      HitKeepsOrder(c, op);
    } else {
      MissTakes(d, size, op.key);
      MissKeepsOrder(c, op);
    }
    forall k | k in Step(c, op).entries ensures LastValue(ops + [op], k) == Some(Step(c, op).entries[k]) {
      LastValueOf(ops, op, k);
    }
  }

  /** Every run leaves the most recently touched distinct keys, newest first, each with its last value. */
  lemma {:induction false} RunAgrees<K(!new), V>(capacity: nat, ops: seq<Op<K, V>>)
    ensures Run(Empty(capacity), ops).capacity == capacity
    ensures Agrees(Run(Empty(capacity), ops), ops)
  {
    if ops != [] {
      var before, op := ops[..|ops| - 1], ops[|ops| - 1];
      assert ops == before + [op];
      RunAgrees(capacity, before);
      var c := Run(Empty(capacity), before);
      if op.Insert? || (op.Get? && op.key in c.entries) {
        TouchAgrees(c, before, op);
      } else if op.Get? {
        forall k | k in c.entries ensures LastValue(ops, k) == Some(c.entries[k]) {
          LastValueOf(before, op, k);
        }
      }
    }
  }

  // ----- the stateful object

  class LruCache<K(==), V> {
    var entries: map<K, V>
    var order: seq<K>
    const capacity: nat

    ghost function Value(): Cache<K, V>
      reads this
    {
      Cache(entries, order, capacity)
    }

    constructor (capacity: nat)
      ensures Value() == Empty(capacity)
    {
      entries, order := map[], [];
      this.capacity := capacity;
    }

    method Get(key: K) returns (r: Option<V>)
      modifies `order
      ensures Value() == Step(old(Value()), Op.Get(key))
      ensures r == Lookup(entries, key)
    {
      if key in entries {
        order := [key] + Without(order, key);
        return Some(entries[key]);
      }
      return None;
    }

    method Insert(key: K, value: V)
      modifies `entries, `order
      ensures Value() == Step(old(Value()), Op.Insert(key, value))
    {
      if |entries| >= capacity && key !in entries {
        if order != [] {
          entries := entries - {order[|order| - 1]};
          order := order[..|order| - 1];
        }
      }
      order := [key] + Without(order, key);
      entries := entries[key := value];
    }

    method Clear()
      modifies `entries, `order
      ensures Value() == Step(old(Value()), Op<K, V>.Clear)
    {
      entries, order := map[], [];
    }
  }
}
