/**
 * The hash map with open addressing and quadratic probing (class `HashMap`
 * of hash_map_oa.py).  The bucket array, the size and the capacity are
 * fields that the methods update in place; every method is proved against
 * the functions of module Probing on `buckets[..]`.
 *
 * Probing loops look at no more than `capacity` steps.  When none of them
 * stops, the loop in hash_map_oa.py would run forever (Probing.SpinsForever): `get`
 * and `contains_key` then return `Spins`, and `put`, `remove` and
 * `resize_table` report `false`.
 */
module OpenAddressing {
  import opened Wrappers
  import opened Probing

  /** A ratio of naturals is at least one half exactly when twice the numerator reaches the denominator. */
  lemma HalfLoad(n: nat, d: nat)
    requires d >= 1
    ensures n as real / d as real >= 0.0
    ensures n as real / d as real >= 0.5 <==> 2 * n >= d
  {
    var r, x, y := n as real / d as real, n as real, d as real;
    assert r * y == x;
    if 2 * n >= d {
      assert (r - 0.5) * y == x - 0.5 * y >= 0.0;
    } else {
      assert (0.5 - r) * y == 0.5 * y - x > 0.0;
    }
  }

  class HashMap<K(==), V(==)> {
    const hash: K -> nat
    var buckets: array<Slot<K, V>>
    var size: nat
    var capacity: nat

    /** The capacity is the length of the bucket array, and the size counts its live slots. */
    ghost predicate Valid()
      reads this, buckets
    {
      capacity >= 1 && buckets.Length == capacity && size == LiveCount(buckets[..])
    }

    constructor (capacity: nat, hash: K -> nat)
      requires capacity >= 1
      ensures Valid() && fresh(buckets)
      ensures this.capacity == capacity && this.hash == hash && size == 0
      ensures forall i :: 0 <= i < capacity ==> buckets[i].Empty?
    {
      this.hash := hash;
      this.capacity := capacity;
      buckets := new Slot<K, V>[capacity](_ => Empty);
      size := 0;
      new;
      BlankTable(buckets[..], hash);
    }

    /** `get_size()`: the number of live entries. */
    function GetSize(): (r: nat)
      reads this, buckets
      ensures Valid() ==> r == LiveCount(buckets[..]) && r <= buckets.Length
    {
      LiveCountBound(buckets[..]);
      size
    }

    /** `get_capacity()`: the number of slots. */
    function GetCapacity(): (r: nat)
      reads this, buckets
      ensures Valid() ==> r == buckets.Length && r >= 1
    {
      capacity
    }

    /** The load factor, exactly; `put` grows the table when it is at least one half. */
    function TableLoad(): (r: real)
      reads this
      requires capacity >= 1
      ensures r >= 0.0
      ensures r >= 0.5 <==> 2 * size >= capacity
    {
      HalfLoad(size, capacity);
      size as real / capacity as real
    }

    /** The probing loop of `put`: writes (k, v) into the first empty, tombstoned or same-key slot. */
    method Place(k: K, v: V) returns (placed: bool)
      requires Valid()
      modifies buckets, this`size
      ensures Valid()
      ensures placed == Placed(old(buckets[..]), hash, k, v).Some?
      ensures buckets[..] == if placed then Placed(old(buckets[..]), hash, k, v).value else old(buckets[..])
    {
      ghost var s := buckets[..];
      var home := hash(k) % capacity;
      var index := home;
      var factor := 0;
      ProbeHome(home, capacity);
      while factor < capacity
        invariant 0 <= factor <= capacity && index == ProbeIndex(home, factor, capacity)
        invariant buckets[..] == s && size == old(size)
        invariant FirstStop(s, Placing, k, home, factor) == FirstStop(s, Placing, k, home, 0)
        decreases capacity - factor
      {
        ProbeAt(s, hash, Placing, k, factor);
        var slot := buckets[index];
        assert slot == s[index];
        if slot.Empty? {
          buckets[index] := Live(k, v);
          size := size + 1;
          LiveCountUpdate(s, index, Live(k, v));
          return true;
        } else if slot.Tomb? {
          buckets[index] := Live(k, v);
          size := size + 1;
          LiveCountUpdate(s, index, Live(k, v));
          return true;
        } else if slot.key == k {
          buckets[index] := Live(k, v);
          LiveCountUpdate(s, index, Live(k, v));
          return true;
        }
        factor := factor + 1;
        index := (home + factor * factor) % capacity;
      }
      ProbeExhausted(s, hash, Placing, k);
      return false;
    }

    /**
     * `put(k, v)`: doubles the capacity first when the load is at least one
     * half, then places the pair.  The result is false when either step would
     * never end in hash_map_oa.py.
     */
    method Put(k: K, v: V) returns (placed: bool)
      requires Valid()
      modifies this, buckets
      decreases size, 1
      ensures Valid() && (buckets == old(buckets) || fresh(buckets))
      ensures old(capacity) <= capacity && size <= old(size) + 1
      ensures 2 * old(size) >= old(capacity) ==> capacity == 2 * old(capacity)
      ensures 2 * old(size) < old(capacity) ==>
        buckets == old(buckets) && capacity == old(capacity) &&
        placed == Placed(old(buckets[..]), hash, k, v).Some? &&
        buckets[..] == (if placed then Placed(old(buckets[..]), hash, k, v).value else old(buckets[..]))
      ensures placed ==> Lookup(buckets[..], hash, k) == Returns(Some(v)) && 2 * size <= capacity + 2
      ensures NoTombs(old(buckets[..])) ==> NoTombs(buckets[..])
      ensures placed && Coherent(old(buckets[..]), hash) ==>
        (NoTombs(old(buckets[..])) || Absent(old(buckets[..]), k) || 2 * old(size) >= old(capacity)) ==>
        Coherent(buckets[..], hash)
      ensures placed && Coherent(old(buckets[..]), hash) && Absent(old(buckets[..]), k) ==>
        LiveBag(buckets[..]) == LiveBag(old(buckets[..])) + multiset{(k, v)}
      ensures placed && Coherent(old(buckets[..]), hash) && (NoTombs(old(buckets[..])) || 2 * old(size) >= old(capacity)) ==>
        Lookup(old(buckets[..]), hash, k).Returns? && Lookup(old(buckets[..]), hash, k).value.Some? ==>
        LiveBag(buckets[..]) + multiset{(k, Lookup(old(buckets[..]), hash, k).value.value)} ==
        LiveBag(old(buckets[..])) + multiset{(k, v)}
    {
      ghost var s0 := buckets[..];
      LiveCountBound(s0);
      if TableLoad() >= 0.5 {
        var finished := Resize(capacity * 2);
        if !finished {
          return false;
        }
        if Coherent(s0, hash) {
          // the resized table holds the same pairs, so `get(k)` and absence carry over
          AbsentByBag(s0, k);
          AbsentByBag(buckets[..], k);
          if Lookup(s0, hash, k).Returns? && Lookup(s0, hash, k).value.Some? {
            LookupMeansLive(s0, hash, k, Lookup(s0, hash, k).value.value);
            LookupMeansLive(buckets[..], hash, k, Lookup(s0, hash, k).value.value);
          }
        }
      }
      ghost var s := buckets[..];
      placed := Place(k, v);
      if placed {
        PlacedEffect(s, hash, k, v);
      }
    }

    /**
     * `resize_table(n)`: ignored when n < 1 or n < size; otherwise a fresh
     * array of n empty slots takes every live entry again through `put`, which
     * may itself double the new table.  Tombstones are dropped.
     */
    method Resize(n: int) returns (finished: bool)
      requires Valid()
      modifies this
      decreases size, 0
      ensures Valid()
      ensures n < 1 || n < old(size) ==> finished && unchanged(this)
      ensures 1 <= n && old(size) <= n ==>
        fresh(buckets) && n <= capacity && NoTombs(buckets[..]) && size <= old(size)
      ensures 1 <= n && 2 * old(size) <= n ==> capacity == n
      ensures 1 <= n && old(size) <= n && finished && Coherent(old(buckets[..]), hash) ==>
        Coherent(buckets[..], hash) && LiveBag(buckets[..]) == LiveBag(old(buckets[..])) && size == old(size)
    {
      if n < 1 || n < size {
        return true;
      }
      var oldTable := buckets;
      ghost var s := oldTable[..];
      buckets := new Slot<K, V>[n](_ => Empty);
      size := 0;
      capacity := n;
      BlankTable(buckets[..], hash);
      var i := 0;
      while i < oldTable.Length
        invariant 0 <= i <= oldTable.Length == |s|
        invariant Valid() && fresh(buckets) && n <= capacity && NoTombs(buckets[..])
        invariant oldTable[..] == s
        invariant size <= LiveCount(s[..i])
        invariant 2 * old(size) <= n ==> capacity == n
        invariant Coherent(s, hash) ==> Coherent(buckets[..], hash) && LiveBag(buckets[..]) == LiveBag(s[..i])
      {
        // a slot that is neither None nor a tombstone
        if oldTable[i].Live? {
          LiveCountPrefix(s, i);
          if Coherent(s, hash) {
            CoherentPrefixAbsent(s, hash, i);
            AbsentByBag(buckets[..], s[i].key);
          }
          var ok := Put(oldTable[i].key, oldTable[i].value);
          if !ok {
            return false;
          }
        }
        PrefixStep(s, i);
        i := i + 1;
      }
      assert s[..i] == s;
      LiveBagCount(buckets[..]);
      LiveBagCount(s);
      return true;
    }

    /** `get(k)`: the value of the first live entry for `k` on the probe path. */
    method Get(k: K) returns (r: Outcome<Option<V>>)
      requires Valid()
      ensures r == Lookup(buckets[..], hash, k)
    {
      ghost var s := buckets[..];
      var home := hash(k) % capacity;
      var index := home;
      var factor := 0;
      ProbeHome(home, capacity);
      while factor < capacity
        invariant 0 <= factor <= capacity && index == ProbeIndex(home, factor, capacity)
        invariant FirstStop(s, Finding, k, home, factor) == FirstStop(s, Finding, k, home, 0)
        decreases capacity - factor
      {
        ProbeAt(s, hash, Finding, k, factor);
        var slot := buckets[index];
        assert slot == s[index];
        if slot.Empty? {
          return Returns(None);
        }
        if slot.key == k && !slot.Tomb? {
          return Returns(Some(slot.value));
        }
        factor := factor + 1;
        index := (home + factor * factor) % capacity;
      }
      ProbeExhausted(s, hash, Finding, k);
      return Spins;
    }

    /** `contains_key(k)`: true at the first non-empty slot holding `k`, tombstoned or not. */
    method ContainsKey(k: K) returns (r: Outcome<bool>)
      requires Valid()
      ensures r == Member(buckets[..], hash, k)
    {
      ghost var s := buckets[..];
      var home := hash(k) % capacity;
      var index := home;
      var factor := 0;
      ProbeHome(home, capacity);
      while factor < capacity
        invariant 0 <= factor <= capacity && index == ProbeIndex(home, factor, capacity)
        invariant FirstStop(s, Testing, k, home, factor) == FirstStop(s, Testing, k, home, 0)
        decreases capacity - factor
      {
        ProbeAt(s, hash, Testing, k, factor);
        var slot := buckets[index];
        assert slot == s[index];
        if slot.Empty? {
          return Returns(false);
        }
        if slot.key == k {
          return Returns(true);
        }
        factor := factor + 1;
        index := (home + factor * factor) % capacity;
      }
      ProbeExhausted(s, hash, Testing, k);
      return Spins;
    }

    /** `remove(k)`: tombstones the first live entry for `k` on the probe path. */
    method Remove(k: K) returns (finished: bool)
      requires Valid()
      modifies buckets, this`size
      ensures Valid()
      ensures finished == Lookup(old(buckets[..]), hash, k).Returns?
      ensures buckets[..] == if finished then Tombstoned(old(buckets[..]), hash, k).value else old(buckets[..])
      ensures Lookup(old(buckets[..]), hash, k) == Returns(None) ==> buckets[..] == old(buckets[..]) && size == old(size)
      ensures finished && Lookup(old(buckets[..]), hash, k).value.Some? ==>
        size + 1 == old(size) &&
        LiveBag(buckets[..]) + multiset{(k, Lookup(old(buckets[..]), hash, k).value.value)} == LiveBag(old(buckets[..]))
    {
      ghost var s := buckets[..];
      var home := hash(k) % capacity;
      var index := home;
      var factor := 0;
      ProbeHome(home, capacity);
      while factor < capacity
        invariant 0 <= factor <= capacity && index == ProbeIndex(home, factor, capacity)
        invariant buckets[..] == s && size == old(size)
        invariant FirstStop(s, Finding, k, home, factor) == FirstStop(s, Finding, k, home, 0)
        decreases capacity - factor
      {
        ProbeAt(s, hash, Finding, k, factor);
        var slot := buckets[index];
        assert slot == s[index];
        if slot.Empty? {
          return true;
        }
        if slot.key == k && !slot.Tomb? {
          TombstonedBag(s, hash, k);
          buckets[index] := Tomb(slot.key, slot.value);
          size := size - 1;
          return true;
        }
        factor := factor + 1;
        index := (home + factor * factor) % capacity;
      }
      ProbeExhausted(s, hash, Finding, k);
      return false;
    }

    /** `clear()`: a fresh array of empty slots at the same capacity. */
    method Clear()
      requires Valid()
      modifies this
      ensures Valid() && fresh(buckets) && capacity == old(capacity) && size == 0
      ensures forall i :: 0 <= i < capacity ==> buckets[i].Empty?
      ensures LiveKeys(buckets[..]) == [] && Coherent(buckets[..], hash) && NoTombs(buckets[..])
    {
      buckets := new Slot<K, V>[capacity](_ => Empty);
      size := 0;
      BlankTable(buckets[..], hash);
    }

    /** `get_keys()`: the live keys in slot order, one per live slot. */
    method GetKeys() returns (keys: seq<K>)
      requires Valid()
      ensures keys == LiveKeys(buckets[..]) && |keys| == size
      ensures forall k :: k in keys <==> exists i :: 0 <= i < capacity && buckets[i].Live? && buckets[i].key == k
    {
      keys := [];
      var i := 0;
      while i < capacity
        invariant 0 <= i <= capacity
        invariant keys == LiveKeys(buckets[..i]) && |keys| == LiveCount(buckets[..i])
      {
        PrefixStep(buckets[..], i);
        assert buckets[..][..i] == buckets[..i] && buckets[..][..i + 1] == buckets[..i + 1];
        if buckets[i].Live? {
          keys := keys + [buckets[i].key];
        }
        i := i + 1;
      }
      assert buckets[..i] == buckets[..];
      forall k ensures (k in keys <==> exists j :: 0 <= j < capacity && buckets[j].Live? && buckets[j].key == k) {
        LiveKeysMember(buckets[..], k);
      }
    }

    /** `empty_buckets()`: slots that are empty or tombstoned, which is the capacity less the size. */
    method EmptyBuckets() returns (count: nat)
      requires Valid()
      ensures count == capacity - size
    {
      count := 0;
      var i := 0;
      while i < buckets.Length
        invariant 0 <= i <= buckets.Length
        invariant count + LiveCount(buckets[..i]) == i
      {
        PrefixStep(buckets[..], i);
        assert buckets[..][..i] == buckets[..i] && buckets[..][..i + 1] == buckets[..i + 1];
        var slot := buckets[i];
        if slot.Empty? || slot.Tomb? {
          count := count + 1;
        }
        i := i + 1;
      }
      assert buckets[..i] == buckets[..];
    }
  }
}
