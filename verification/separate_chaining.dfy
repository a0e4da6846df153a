/**
 * The hash map with separate chaining (class `HashMap` of hash_map_sc.py)
 * and the `find_mode` function built on it.  The bucket array, the size and
 * the capacity are fields that the methods update in place; the ghost field
 * `Contents` is the map from keys to values that the buckets store, tied to
 * them by `Valid()`.
 */
module SeparateChaining {
  import opened Wrappers
  import opened Chains

  class HashMap<K(==), V(==)> {
    const hash: K -> nat
    var buckets: array<seq<(K, V)>>
    var size: nat
    var capacity: nat
    ghost var Contents: map<K, V>

    /** The capacity is the number of buckets, the buckets store `Contents`, and the size is its number of keys. */
    ghost predicate Valid()
      reads this, buckets
    {
      buckets.Length == capacity && size == |Contents| && Represents(buckets[..], Contents, hash)
    }

    constructor (capacity: nat, hash: K -> nat)
      ensures Valid() && fresh(buckets)
      ensures this.capacity == capacity && this.hash == hash && size == 0 && Contents == map[]
      ensures forall i :: 0 <= i < capacity ==> buckets[i] == []
    {
      this.hash := hash;
      this.capacity := capacity;
      buckets := new seq<(K, V)>[capacity](_ => []);
      size := 0;
      Contents := map[];
      new;
      RepresentsEmpty<K, V>(capacity, hash);
      assert buckets[..] == seq<seq<(K, V)>>(capacity, _ => []);
    }

    /** `get_size()`: the number of stored keys. */
    function GetSize(): (r: nat)
      reads this, buckets
      ensures Valid() ==> r == |Contents|
    {
      size
    }

    /** `get_capacity()`: the number of buckets. */
    function GetCapacity(): (r: nat)
      reads this, buckets
      ensures Valid() ==> r == buckets.Length
    {
      capacity
    }

    /** `put(k, v)`: overwrites the value of a stored key, or adds the pair to its bucket. */
    method Put(k: K, v: V)
      requires Valid() && capacity >= 1
      modifies buckets, this`size, this`Contents
      ensures Valid()
      ensures Contents == old(Contents)[k := v]
      ensures size == if k in old(Contents) then old(size) else old(size) + 1
      ensures forall i :: 0 <= i < capacity && i != hash(k) % capacity ==> buckets[i] == old(buckets[i])
    {
      ghost var b := buckets[..];
      var index := hash(k) % capacity;
      var chain := buckets[index];
      FindRepresents(b, Contents, hash, k);
      match Find(chain, k)
      case None =>
        RepresentsInsert(b, Contents, hash, k, v);
        buckets[index] := [(k, v)] + chain;
        size := size + 1;
        Contents := Contents[k := v];
        assert buckets[..] == b[index := [(k, v)] + chain];
      case Some(j) =>
        RepresentsOverwrite(b, Contents, hash, k, v, j);
        buckets[index] := chain[j := (k, v)];
        Contents := Contents[k := v];
        assert buckets[..] == b[index := chain[j := (k, v)]];
    }

    /**
     * `find_mode_put(k, v)`: adds `v` to the value of a stored key, or adds
     * the pair.  The addition is the parameter `plus`.
     */
    method FindModePut(k: K, v: V, plus: (V, V) -> V)
      requires Valid() && capacity >= 1
      modifies buckets, this`size, this`Contents
      ensures Valid()
      ensures Contents == old(Contents)[k := if k in old(Contents) then plus(old(Contents)[k], v) else v]
      ensures size == if k in old(Contents) then old(size) else old(size) + 1
      ensures forall i :: 0 <= i < capacity && i != hash(k) % capacity ==> buckets[i] == old(buckets[i])
    {
      ghost var b := buckets[..];
      var index := hash(k) % capacity;
      var chain := buckets[index];
      FindRepresents(b, Contents, hash, k);
      match Find(chain, k)
      case None =>
        RepresentsInsert(b, Contents, hash, k, v);
        buckets[index] := [(k, v)] + chain;
        size := size + 1;
        Contents := Contents[k := v];
        assert buckets[..] == b[index := [(k, v)] + chain];
      case Some(j) =>
        var sum := plus(chain[j].1, v);
        RepresentsOverwrite(b, Contents, hash, k, sum, j);
        buckets[index] := chain[j := (k, sum)];
        Contents := Contents[k := sum];
        assert buckets[..] == b[index := chain[j := (k, sum)]];
    }

    /** `empty_buckets()`: at least capacity - size buckets are empty, and all are exactly when the map is. */
    method EmptyBuckets() returns (count: nat)
      requires Valid()
      ensures count == EmptyCount(buckets[..])
      ensures capacity - size <= count <= capacity
      ensures count == capacity <==> size == 0
    {
      count := 0;
      var i := 0;
      while i < capacity
        invariant 0 <= i <= capacity
        invariant count == EmptyCount(buckets[..i])
      {
        assert buckets[..i + 1][..i] == buckets[..i];
        if |buckets[i]| == 0 {
          count := count + 1;
        }
        i := i + 1;
      }
      assert buckets[..i] == buckets[..];
      EmptyCountBounds(buckets[..]);
    }

    /** `table_load()`: size over capacity, exactly. */
    function TableLoad(): (r: real)
      reads this
      requires capacity >= 1
      ensures r >= 0.0 && (r == 0.0 <==> size == 0)
      ensures r <= 1.0 <==> size <= capacity
    {
      var r := size as real / capacity as real;
      assert r * capacity as real == size as real;
      assert size <= capacity ==> r <= 1.0 by {
        if size <= capacity {
          assert (1.0 - r) * capacity as real >= 0.0;
        }
      }
      r
    }

    /** `clear()`: every bucket becomes empty, in the same array. */
    method Clear()
      requires Valid()
      modifies buckets, this`size, this`Contents
      ensures Valid() && Contents == map[] && size == 0
      ensures forall i :: 0 <= i < capacity ==> buckets[i] == []
    {
      var i := 0;
      while i < capacity
        invariant 0 <= i <= capacity
        invariant forall j :: 0 <= j < i ==> buckets[j] == []
      {
        if |buckets[i]| != 0 {
          buckets[i] := [];
        }
        i := i + 1;
      }
      size := 0;
      Contents := map[];
      RepresentsEmpty<K, V>(capacity, hash);
      assert buckets[..] == seq<seq<(K, V)>>(capacity, _ => []);
    }

    /**
     * `resize_table(n)`: ignored when n < 1; otherwise every pair moves into
     * bucket hash(key) % n of a fresh array of n buckets, whatever the size.
     */
    method ResizeTable(n: int)
      requires Valid()
      modifies this
      ensures Valid()
      ensures n < 1 ==> unchanged(this)
      ensures n >= 1 ==> fresh(buckets) && capacity == n && Contents == old(Contents) && size == old(size)
    {
      if n < 1 {
        return;
      }
      buckets := Rehash(buckets, n, hash, Contents);
      capacity := n;
    }

    /** `get(k)`: the stored value of `k`, or None. */
    method Get(k: K) returns (r: Option<V>)
      requires Valid() && capacity >= 1
      ensures r == if k in Contents then Some(Contents[k]) else None
    {
      var index := hash(k) % capacity;
      FindRepresents(buckets[..], Contents, hash, k);
      match Find(buckets[index], k)
      case None =>
        return None;
      case Some(j) =>
        return Some(buckets[index][j].1);
    }

    /** `contains_key(k)`: false at once on an empty map, otherwise whether `k` is in its bucket. */
    method ContainsKey(k: K) returns (r: bool)
      requires Valid()
      ensures r == (k in Contents)
    {
      if size == 0 {
        return false;
      }
      assert TotalEntries(buckets[..]) > 0;
      var index := hash(k) % capacity;
      FindRepresents(buckets[..], Contents, hash, k);
      r := Find(buckets[index], k).Some?;
    }

    /** `remove(k)`: takes the pair of `k` out of its bucket; the size drops only when there was one. */
    method Remove(k: K)
      requires Valid() && capacity >= 1
      modifies buckets, this`size, this`Contents
      ensures Valid()
      ensures Contents == old(Contents) - {k}
      ensures size == if k in old(Contents) then old(size) - 1 else old(size)
      ensures forall i :: 0 <= i < capacity && i != hash(k) % capacity ==> buckets[i] == old(buckets[i])
    {
      ghost var b, m := buckets[..], Contents;
      var index := hash(k) % capacity;
      var chain := buckets[index];
      RepresentsRemove(b, m, hash, k);
      var removed := Find(chain, k).Some?;
      buckets[index] := Delete(chain, k);
      assert buckets[..] == b[index := Delete(chain, k)];
      if removed {
        size := size - 1;
      }
      Contents := m - {k};
    }

    /** `get_keys()`: the keys bucket by bucket; each stored key exactly once. */
    method GetKeys() returns (keys: seq<K>)
      requires Valid()
      ensures keys == KeysOf(buckets[..])
      ensures |keys| == size && Distinct(keys)
      ensures forall k :: k in keys <==> k in Contents
    {
      keys := [];
      var i := 0;
      while i < capacity
        invariant 0 <= i <= capacity
        invariant keys == KeysOf(buckets[..i])
      {
        var chain := buckets[i];
        var j := 0;
        while j < |chain|
          invariant 0 <= j <= |chain|
          invariant keys == KeysOf(buckets[..i]) + ChainKeys(chain[..j])
        {
          assert chain[..j + 1][..j] == chain[..j];
          keys := keys + [chain[j].0];
          j := j + 1;
        }
        assert chain[..j] == chain;
        assert buckets[..i + 1][..i] == buckets[..i];
        i := i + 1;
      }
      assert buckets[..i] == buckets[..];
      KeysOfRepresents(buckets[..], Contents, hash);
    }
  }

  /**
   * The loops of `resize_table`: a fresh array of `n` buckets that stores
   * what `table` stores, each pair in the bucket its key hashes to modulo `n`.
   */
  method Rehash<K, V>(table: array<seq<(K, V)>>, n: nat, hash: K -> nat, ghost m: map<K, V>)
      returns (newTable: array<seq<(K, V)>>)
    requires n >= 1 && Represents(table[..], m, hash)
    ensures fresh(newTable) && newTable.Length == n
    ensures Represents(newTable[..], m, hash)
  {
    ghost var b := table[..];
    newTable := new seq<(K, V)>[n](_ => []);
    RepresentsEmpty<K, V>(n, hash);
    assert newTable[..] == seq<seq<(K, V)>>(n, _ => []);
    ghost var moved: map<K, V> := map[];
    var i := 0;
    while i < table.Length
      invariant 0 <= i <= table.Length == |b|
      invariant table[..] == b
      invariant Represents(newTable[..], moved, hash)
      invariant MovedSoFar(moved, m, hash, |b|, i, [], 0)
    {
      moved := MoveChain(newTable, table[i], hash, b, m, moved, i);
      i := i + 1;
    }
    RehashDone(b, m, hash, moved);
  }

  /**
   * The inner loop of `resize_table`: every pair of bucket `i` of the old
   * table `b` goes to the front of its bucket in the new table `t`.
   */
  method MoveChain<K, V>(t: array<seq<(K, V)>>, chain: seq<(K, V)>, hash: K -> nat,
                         ghost b: seq<seq<(K, V)>>, ghost m: map<K, V>, ghost moved: map<K, V>, ghost i: nat)
      returns (ghost moved': map<K, V>)
    requires Represents(b, m, hash) && i < |b| && chain == b[i]
    requires t.Length > 0 && Represents(t[..], moved, hash)
    requires MovedSoFar(moved, m, hash, |b|, i, [], 0)
    modifies t
    ensures Represents(t[..], moved', hash)
    ensures MovedSoFar(moved', m, hash, |b|, i + 1, [], 0)
  {
    moved' := moved;
    RehashEnter(moved, m, hash, |b|, i, chain);
    var j := 0;
    while j < |chain|
      invariant 0 <= j <= |chain|
      invariant Represents(t[..], moved', hash)
      invariant MovedSoFar(moved', m, hash, |b|, i, chain, j)
    {
      var key, value := chain[j].0, chain[j].1;
      var index := hash(key) % t.Length;
      RehashStep(b, m, hash, t[..], moved', i, j);
      t[index] := [(key, value)] + t[index];
      moved' := moved'[key := value];
      j := j + 1;
    }
    RehashNext(b, m, hash, moved', i);
  }

  /** How often each element occurs in `s`. */
  function Tally<K(==)>(s: seq<K>): map<K, nat>
  {
    map x | x in s :: multiset(s)[x]
  }

  /** Counting one more element: a new key starts at 1, a known one goes up by 1. */
  lemma TallyStep<K>(s: seq<K>, i: nat)
    requires i < |s|
    ensures Tally(s[..i + 1]) == Tally(s[..i])[s[i] := if s[i] in Tally(s[..i]) then Tally(s[..i])[s[i]] + 1 else 1]
  {
    var p, x := s[..i], s[i];
    assert s[..i + 1] == p + [x];
    var t, u := Tally(p + [x]), Tally(p)[x := if x in Tally(p) then Tally(p)[x] + 1 else 1];
    assert multiset(p + [x]) == multiset(p) + multiset{x};
    forall y
      ensures y in t <==> y in u
      ensures y in t ==> t[y] == u[y]
    {
      assert y in p + [x] <==> y in p || y == x;
    }
  }

  /** The tally has the elements of `s` as keys, each with its multiplicity, at least 1. */
  lemma TallyMeaning<K>(s: seq<K>)
    ensures forall x :: x in Tally(s) <==> x in s
    ensures forall x :: x in Tally(s) ==> Tally(s)[x] == multiset(s)[x] >= 1
    ensures forall x :: x !in s ==> multiset(s)[x] == 0
  {
  }

  /**
   * What the second loop of `find_mode` knows after the keys `seen`: the
   * highest count among them (1 before the first) and, once each, the keys
   * with it.
   */
  ghost predicate ModesSoFar<K>(seen: seq<K>, tally: map<K, nat>, modes: seq<K>, frequency: nat)
  {
    && frequency >= 1
    && (forall x :: x in modes ==> x in seen && x in tally && tally[x] == frequency)
    && (forall x :: x in seen && x in tally && tally[x] == frequency ==> x in modes)
    && (forall x :: x in seen && x in tally ==> tally[x] <= frequency)
    && Distinct(modes)
    && (|seen| > 0 ==> |modes| > 0)
    && (seen == [] ==> frequency == 1)
  }

  /** One more key: a higher count starts the modes afresh, an equal one joins them, a lower one is passed over. */
  lemma ModesStep<K>(keys: seq<K>, tally: map<K, nat>, j: nat, modes: seq<K>, frequency: nat, modes': seq<K>, frequency': nat)
    requires j < |keys| && Distinct(keys) && keys[j] in tally && tally[keys[j]] >= 1
    requires ModesSoFar(keys[..j], tally, modes, frequency)
    requires tally[keys[j]] > frequency ==> frequency' == tally[keys[j]] && modes' == [keys[j]]
    requires tally[keys[j]] == frequency ==> frequency' == frequency && modes' == modes + [keys[j]]
    requires tally[keys[j]] < frequency ==> frequency' == frequency && modes' == modes
    ensures ModesSoFar(keys[..j + 1], tally, modes', frequency')
  {
    var x, seen, seen' := keys[j], keys[..j], keys[..j + 1];
    assert seen' == seen + [x];
    assert x !in seen by {
      forall t | 0 <= t < j
        ensures seen[t] != x
      {
      }
    }
    assert forall y :: y in seen' <==> y in seen || y == x;
    if tally[x] > frequency {
      assert forall y :: y in seen' && y in tally ==> tally[y] <= frequency';
      assert forall y :: y in seen && y in tally ==> tally[y] < frequency';
      assert forall y :: y in seen' && y in tally && tally[y] == frequency' ==> y in modes';
    } else if tally[x] == frequency {
      assert x !in modes;
      assert Distinct(modes') by {
        forall a, b | 0 <= a < b < |modes'|
          ensures modes'[a] != modes'[b]
        {
          if b == |modes| {
            assert modes'[a] == modes[a] && modes[a] in modes;
          } else {
            assert modes'[a] == modes[a] && modes'[b] == modes[b];
          }
        }
      }
      assert forall y :: y in modes' <==> y in modes || y == x;
      assert forall y :: y in modes' ==> y in seen' && y in tally && tally[y] == frequency';
      assert forall y :: y in seen' && y in tally && tally[y] == frequency' ==> y in modes';
      assert forall y :: y in seen' && y in tally ==> tally[y] <= frequency';
      assert frequency' >= 1;
      assert |seen'| > 0 ==> |modes'| > 0;
    } else {
      assert forall y :: y in seen' && y in tally && tally[y] == frequency' ==> y in modes';
    }
  }

  /** The first loop of `find_mode`: a table of capacity |da| / 3 counting each element of `da` with `find_mode_put(x, 1)`. */
  method CountAll<K(==)>(da: seq<K>, hash: K -> nat) returns (counts: HashMap<K, nat>)
    requires |da| != 1 && |da| != 2
    ensures fresh(counts) && counts.Valid()
    ensures counts.capacity == |da| / 3 && counts.Contents == Tally(da)
  {
    counts := new HashMap<K, nat>(|da| / 3, hash);
    var i := 0;
    while i < |da|
      invariant 0 <= i <= |da|
      invariant fresh(counts) && fresh(counts.buckets) && counts.Valid()
      invariant counts.capacity == |da| / 3
      invariant counts.Contents == Tally(da[..i])
    {
      TallyStep(da, i);
      counts.FindModePut(da[i], 1, (a: nat, b: nat) => a + b);
      i := i + 1;
    }
    assert da[..i] == da;
  }

  /**
   * The second loop of `find_mode`: over the keys of a table holding the
   * counts `tally`, the highest count (1 when there is none) and, once
   * each, the keys that have it.
   */
  method PickModes<K(==)>(counts: HashMap<K, nat>, ghost tally: map<K, nat>) returns (modes: seq<K>, frequency: nat)
    requires counts.Valid() && counts.Contents == tally
    requires forall x :: x in tally ==> tally[x] >= 1
    requires |tally| > 0 ==> counts.capacity >= 1
    ensures frequency >= 1
    ensures forall x :: x in modes ==> x in tally && tally[x] == frequency
    ensures forall x :: x in tally && tally[x] == frequency ==> x in modes
    ensures forall x :: x in tally ==> tally[x] <= frequency
    ensures Distinct(modes)
    ensures |tally| > 0 ==> |modes| > 0
    ensures |tally| == 0 ==> frequency == 1 && modes == []
  {
    var keys := counts.GetKeys();
    frequency := 1;
    modes := [];
    var j := 0;
    while j < |keys|
      invariant 0 <= j <= |keys|
      invariant ModesSoFar(keys[..j], tally, modes, frequency)
    {
      var value := counts.Get(keys[j]);
      var count := value.value;
      var modes', frequency' := modes, frequency;
      if count > frequency {
        frequency' := count;
        modes' := [keys[j]];
      } else if count == frequency {
        modes' := modes + [keys[j]];
      }
      ModesStep(keys, tally, j, modes, frequency, modes', frequency');
      modes, frequency := modes', frequency';
      j := j + 1;
    }
    assert keys[..j] == keys;
    assert modes != [] ==> modes[0] in modes;
  }

  /**
   * `find_mode(da)`: the largest multiplicity and, once each, the elements
   * that have it.  A two-element array builds a table of capacity 2 / 3 == 0
   * and divides by zero in hash_map_sc.py.
   */
  method FindMode<K(==)>(da: seq<K>, hash: K -> nat) returns (modes: seq<K>, frequency: nat)
    requires |da| != 2
    ensures frequency >= 1
    ensures forall x :: x in modes ==> x in da && multiset(da)[x] == frequency
    ensures forall x :: x in da && multiset(da)[x] == frequency ==> x in modes
    ensures forall x :: x in da ==> multiset(da)[x] <= frequency
    ensures Distinct(modes)
    ensures |da| > 0 ==> |modes| > 0
    ensures |da| == 0 ==> frequency == 1 && modes == []
  {
    if |da| == 1 {
      return [da[0]], 1;
    }
    var counts := CountAll(da, hash);
    TallyMeaning(da);
    assert |da| > 0 ==> da[0] in Tally(da);
    modes, frequency := PickModes(counts, Tally(da));
  }
}
