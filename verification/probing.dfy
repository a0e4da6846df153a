/**
 * The bucket array of the open-addressing hash map (hash_map_oa.py) taken as
 * a value: a sequence of slots, the quadratic probe sequence over it, and
 * what `put`, `get`, `contains_key` and `remove` find in it or make of it.
 * The class in module OpenAddressing is proved against these functions, and
 * the lemmas here say what the functions mean.
 *
 * Every probing loop of hash_map_oa.py runs `index = (home + i*i) % capacity`
 * for i = 0, 1, 2, ... with no bound.  The probe index is periodic in i with
 * period `capacity` (lemma ProbeCycle), so looking at the first `capacity`
 * steps decides everything: if none of them stops the loop, no later step
 * does either, and the Python code spins forever (lemma SpinsForever).  That case
 * is the outcome `Spins`.
 */
module Probing {
  import opened Wrappers

  /** A bucket: `None`, a live `HashEntry`, or a tombstoned one.  A tombstone keeps its key and value. */
  datatype Slot<K, V> = Empty | Live(key: K, value: V) | Tomb(key: K, value: V)

  /** What a probing loop does: return a value, or never leave the loop. */
  datatype Outcome<T> = Returns(value: T) | Spins

  /** Which loop is probing: `put` (Placing), `get` or `remove` (Finding), `contains_key` (Testing). */
  datatype Search = Placing | Finding | Testing

  /** The slot visited at step `i` of the quadratic probe that starts at `home`. */
  function ProbeIndex(home: nat, i: nat, m: nat): (r: nat)
    requires m > 0
    ensures r < m
  {
    (home + i * i) % m
  }

  /**
   * Whether the loop of the given kind leaves the probe at this slot.
   * `put` stops at an empty slot, at any tombstone, or at a live entry with key `k`;
   * `get` and `remove` stop at an empty slot or at a live entry with key `k`;
   * `contains_key` stops at an empty slot or at any entry with key `k`, tombstoned or not.
   */
  predicate Stops<K(==), V(==)>(mode: Search, slot: Slot<K, V>, k: K)
  {
    match mode
    case Placing => !slot.Live? || slot.key == k
    case Finding => slot.Empty? || (slot.Live? && slot.key == k)
    case Testing => slot.Empty? || slot.key == k
  }

  /** The first probe step at or after `i`, and below |s|, where the loop stops. */
  function FirstStop<K(==), V(==)>(s: seq<Slot<K, V>>, mode: Search, k: K, home: nat, i: nat): (r: Option<nat>)
    requires |s| > 0
    ensures r.Some? ==> i <= r.value < |s| && Stops(mode, s[ProbeIndex(home, r.value, |s|)], k)
    ensures r.Some? ==> forall j :: i <= j < r.value ==> !Stops(mode, s[ProbeIndex(home, j, |s|)], k)
    ensures r.None? ==> forall j :: i <= j < |s| ==> !Stops(mode, s[ProbeIndex(home, j, |s|)], k)
    decreases |s| - i
  {
    if i >= |s| then None
    else if Stops(mode, s[ProbeIndex(home, i, |s|)], k) then Some(i)
    else FirstStop(s, mode, k, home, i + 1)
  }

  /** The slot where a probe for `k` stops, if it stops at all. */
  function Locate<K(==), V(==)>(s: seq<Slot<K, V>>, hash: K -> nat, mode: Search, k: K): (r: Option<nat>)
    requires |s| > 0
    ensures r.Some? ==> r.value < |s| && Stops(mode, s[r.value], k)
  {
    var home := hash(k) % |s|;
    match FirstStop(s, mode, k, home, 0)
    case None => None
    case Some(p) => Some(ProbeIndex(home, p, |s|))
  }

  /** What `get(k)` returns: the value of the first live entry for `k` on the probe path, or None at an empty slot. */
  function Lookup<K(==), V(==)>(s: seq<Slot<K, V>>, hash: K -> nat, k: K): (r: Outcome<Option<V>>)
    requires |s| > 0
    ensures r.Returns? && r.value.Some? ==> Live(k, r.value.value) in s
    ensures r == Returns(None) ==> Empty in s
  {
    match Locate(s, hash, Finding, k)
    case None => Spins
    case Some(i) => if s[i].Empty? then Returns(None) else Returns(Some(s[i].value))
  }

  /** What `contains_key(k)` returns. */
  function Member<K(==), V(==)>(s: seq<Slot<K, V>>, hash: K -> nat, k: K): (r: Outcome<bool>)
    requires |s| > 0
    ensures r == Returns(true) ==> exists i :: 0 <= i < |s| && !s[i].Empty? && s[i].key == k
    ensures r == Returns(false) ==> Empty in s
  {
    match Locate(s, hash, Testing, k)
    case None => Spins
    case Some(i) => Returns(!s[i].Empty?)
  }

  /** The slots after the probing part of `put(k, v)`; None when that loop never ends. */
  function Placed<K(==), V(==)>(s: seq<Slot<K, V>>, hash: K -> nat, k: K, v: V): (r: Option<seq<Slot<K, V>>>)
    requires |s| > 0
    ensures r.Some? ==> |r.value| == |s| && Live(k, v) in r.value
  {
    match Locate(s, hash, Placing, k)
    case None => None
    case Some(i) => assert s[i := Live(k, v)][i] == Live(k, v); Some(s[i := Live(k, v)])
  }

  /** The slots after `remove(k)`: the first live entry for `k` on the probe path becomes a tombstone. */
  function Tombstoned<K(==), V(==)>(s: seq<Slot<K, V>>, hash: K -> nat, k: K): (r: Outcome<seq<Slot<K, V>>>)
    requires |s| > 0
    ensures r.Returns? ==> |r.value| == |s|
    ensures r.Returns? ==> forall j :: 0 <= j < |s| && r.value[j] != s[j] ==> s[j].Live? && s[j].key == k && r.value[j] == Tomb(k, s[j].value)
  {
    match Locate(s, hash, Finding, k)
    case None => Spins
    case Some(i) => if s[i].Empty? then Returns(s) else Returns(s[i := Tomb(s[i].key, s[i].value)])
  }

  /** Number of live slots. */
  function LiveCount<K(==), V(==)>(s: seq<Slot<K, V>>): nat
  {
    if s == [] then 0 else LiveCount(s[..|s| - 1]) + (if s[|s| - 1].Live? then 1 else 0)
  }

  /** The live entry of a slot, as a bag of at most one pair. */
  function SlotBag<K(==), V(==)>(slot: Slot<K, V>): multiset<(K, V)>
  {
    if slot.Live? then multiset{(slot.key, slot.value)} else multiset{}
  }

  /** The live (key, value) pairs of the table. */
  function LiveBag<K(==), V(==)>(s: seq<Slot<K, V>>): multiset<(K, V)>
  {
    if s == [] then multiset{} else LiveBag(s[..|s| - 1]) + SlotBag(s[|s| - 1])
  }

  /** The live keys in slot order: what `get_keys` returns. */
  function LiveKeys<K(==), V(==)>(s: seq<Slot<K, V>>): seq<K>
  {
    if s == [] then [] else LiveKeys(s[..|s| - 1]) + (if s[|s| - 1].Live? then [s[|s| - 1].key] else [])
  }

  predicate NoTombs<K(==), V(==)>(s: seq<Slot<K, V>>)
  {
    forall i :: 0 <= i < |s| ==> !s[i].Tomb?
  }

  /** No live entry holds key `k`. */
  predicate Absent<K(==), V(==)>(s: seq<Slot<K, V>>, k: K)
  {
    forall i :: 0 <= i < |s| ==> !(s[i].Live? && s[i].key == k)
  }

  /**
   * Every live entry is the one `get` finds for its key.  This rules out two
   * live entries with one key, and every live entry is reachable.
   */
  ghost predicate Coherent<K, V>(s: seq<Slot<K, V>>, hash: K -> nat)
  {
    |s| > 0 && forall i :: 0 <= i < |s| && s[i].Live? ==> Locate(s, hash, Finding, s[i].key) == Some(i)
  }

  // ---------------------------------------------------------------------
  // The probe sequence

  lemma FirstStopIs<K, V>(s: seq<Slot<K, V>>, mode: Search, k: K, home: nat, i: nat, p: nat)
    requires |s| > 0 && i <= p < |s|
    requires Stops(mode, s[ProbeIndex(home, p, |s|)], k)
    requires forall j :: i <= j < p ==> !Stops(mode, s[ProbeIndex(home, j, |s|)], k)
    ensures FirstStop(s, mode, k, home, i) == Some(p)
  {
  }

  /** One step of a probing loop: it stops at step `i`, or its first stop lies further on. */
  lemma ProbeStep<K, V>(s: seq<Slot<K, V>>, mode: Search, k: K, home: nat, i: nat)
    requires i < |s|
    ensures Stops(mode, s[ProbeIndex(home, i, |s|)], k) ==> FirstStop(s, mode, k, home, i) == Some(i)
    ensures !Stops(mode, s[ProbeIndex(home, i, |s|)], k) ==> FirstStop(s, mode, k, home, i) == FirstStop(s, mode, k, home, i + 1)
  {
  }

  /** Step 0 of a probe visits its home slot. */
  lemma ProbeHome(home: nat, m: nat)
    requires home < m
    ensures ProbeIndex(home, 0, m) == home
  {
  }

  /**
   * A probing loop for `k` that has passed steps 0 .. i-1 without stopping:
   * if it stops at step `i`, that slot is where the probe for `k` stops;
   * otherwise it has passed step `i` too.
   */
  lemma ProbeAt<K, V>(s: seq<Slot<K, V>>, hash: K -> nat, mode: Search, k: K, i: nat)
    requires i < |s|
    requires FirstStop(s, mode, k, hash(k) % |s|, i) == FirstStop(s, mode, k, hash(k) % |s|, 0)
    ensures Stops(mode, s[ProbeIndex(hash(k) % |s|, i, |s|)], k) ==> Locate(s, hash, mode, k) == Some(ProbeIndex(hash(k) % |s|, i, |s|))
    ensures !Stops(mode, s[ProbeIndex(hash(k) % |s|, i, |s|)], k) ==>
      FirstStop(s, mode, k, hash(k) % |s|, i + 1) == FirstStop(s, mode, k, hash(k) % |s|, 0)
  {
    ProbeStep(s, mode, k, hash(k) % |s|, i);
  }

  /** A probing loop for `k` that has passed all |s| steps without stopping never stops. */
  lemma ProbeExhausted<K, V>(s: seq<Slot<K, V>>, hash: K -> nat, mode: Search, k: K)
    requires |s| > 0
    requires FirstStop(s, mode, k, hash(k) % |s|, |s|) == FirstStop(s, mode, k, hash(k) % |s|, 0)
    ensures Locate(s, hash, mode, k) == None
  {
  }

  lemma MulAtLeast(m: nat, d: int)
    requires m > 0 && d >= 1
    ensures m * d >= m
  {
    assert m * d == m * (d - 1) + m;
  }

  lemma AddModulus(b: nat, m: nat)
    requires m > 0
    ensures (b + m) % m == b % m
  {
    var q, r := b / m, b % m;
    var q2, r2 := (b + m) / m, (b + m) % m;
    assert b == m * q + r;
    assert b + m == m * q2 + r2;
    var d := q + 1 - q2;
    assert m * d == r2 - r;
    if d >= 1 { MulAtLeast(m, d); }
    if d <= -1 { MulAtLeast(m, -d); }
  }

  lemma {:induction false} ModAddMultiple(a: nat, m: nat, x: nat)
    requires m > 0
    ensures (a + m * x) % m == a % m
    decreases x
  {
    if x > 0 {
      ModAddMultiple(a, m, x - 1);
      assert a + m * x == (a + m * (x - 1)) + m;
      AddModulus(a + m * (x - 1), m);
    }
  }

  lemma SquareOfSum(a: nat, b: nat)
    ensures (a + b) * (a + b) == a * a + 2 * a * b + b * b
  {
  }

  /** Step `i` and step `i % m` of a probe visit the same slot. */
  lemma ProbeCycle(home: nat, i: nat, m: nat)
    requires m > 0
    ensures ProbeIndex(home, i, m) == ProbeIndex(home, i % m, m)
  {
    var q, r := i / m, i % m;
    var a := q * m;
    assert i == a + r;
    SquareOfSum(a, r);
    assert a * a == m * (m * q * q) && 2 * a * r == m * (2 * q * r);
    assert i * i == r * r + m * (2 * q * r + m * q * q);
    ModAddMultiple(home + r * r, m, 2 * q * r + m * q * q);
  }

  /** When none of the first |s| steps stops a probe, no step ever does: the loop in hash_map_oa.py runs forever. */
  lemma SpinsForever<K, V>(s: seq<Slot<K, V>>, mode: Search, k: K, home: nat)
    requires |s| > 0 && FirstStop(s, mode, k, home, 0).None?
    ensures forall j: nat :: !Stops(mode, s[ProbeIndex(home, j, |s|)], k)
  {
    forall j: nat ensures !Stops(mode, s[ProbeIndex(home, j, |s|)], k) {
      ProbeCycle(home, j, |s|);
    }
  }

  // ---------------------------------------------------------------------
  // Counting live slots

  lemma {:induction false} LiveCountBound<K, V>(s: seq<Slot<K, V>>)
    ensures LiveCount(s) <= |s|
    decreases |s|
  {
    if s != [] { LiveCountBound(s[..|s| - 1]); }
  }

  /** The live count, bag and key list of a prefix grow by the next slot. */
  lemma PrefixStep<K, V>(s: seq<Slot<K, V>>, i: nat)
    requires i < |s|
    ensures LiveCount(s[..i + 1]) == LiveCount(s[..i]) + (if s[i].Live? then 1 else 0)
    ensures LiveBag(s[..i + 1]) == LiveBag(s[..i]) + SlotBag(s[i])
    ensures LiveKeys(s[..i + 1]) == LiveKeys(s[..i]) + (if s[i].Live? then [s[i].key] else [])
  {
    assert s[..i + 1][..i] == s[..i];
  }

  /** A live slot at `i` is not yet counted in the prefix before it. */
  lemma {:induction false} LiveCountPrefix<K, V>(s: seq<Slot<K, V>>, i: nat)
    requires i < |s|
    ensures LiveCount(s[..i]) + (if s[i].Live? then 1 else 0) <= LiveCount(s)
    decreases |s|
  {
    var n := |s| - 1;
    if i < n {
      assert s[..n][..i] == s[..i];
      LiveCountPrefix(s[..n], i);
    } else {
      assert s[..n] == s[..i];
    }
  }

  /** Overwriting one slot changes the live count by the liveness of the old and the new slot. */
  lemma {:induction false} LiveCountUpdate<K, V>(s: seq<Slot<K, V>>, i: nat, x: Slot<K, V>)
    requires i < |s|
    ensures LiveCount(s[i := x]) + (if s[i].Live? then 1 else 0) == LiveCount(s) + (if x.Live? then 1 else 0)
    decreases |s|
  {
    var n := |s| - 1;
    if i < n {
      assert s[i := x][..n] == s[..n][i := x];
      LiveCountUpdate(s[..n], i, x);
    } else {
      assert s[i := x][..n] == s[..n];
    }
  }

  /** Overwriting one slot swaps its entry in the bag of live pairs. */
  lemma {:induction false} LiveBagUpdate<K, V>(s: seq<Slot<K, V>>, i: nat, x: Slot<K, V>)
    requires i < |s|
    ensures LiveBag(s[i := x]) + SlotBag(s[i]) == LiveBag(s) + SlotBag(x)
    decreases |s|
  {
    var n := |s| - 1;
    if i < n {
      assert s[i := x][..n] == s[..n][i := x];
      LiveBagUpdate(s[..n], i, x);
      var t, p := s[i := x], s[..n];
      assert p[i] == s[i] && t[n] == s[n];
      assert LiveBag(t) == LiveBag(p[i := x]) + SlotBag(s[n]);
      assert LiveBag(s) == LiveBag(p) + SlotBag(s[n]);
      BagSwap(LiveBag(p[i := x]), LiveBag(p), SlotBag(s[n]), SlotBag(s[i]), SlotBag(x));
    } else {
      assert s[i := x][..n] == s[..n];
    }
  }

  lemma BagSwap<T>(a': multiset<T>, a: multiset<T>, b: multiset<T>, c: multiset<T>, d: multiset<T>)
    requires a' + c == a + d
    ensures (a' + b) + c == (a + b) + d
  {
    forall x
      ensures ((a' + b) + c)[x] == ((a + b) + d)[x]
    {
      assert (a' + c)[x] == (a + d)[x];
    }
  }

  /** One pair in the bag per live slot. */
  lemma {:induction false} LiveBagCount<K, V>(s: seq<Slot<K, V>>)
    ensures |LiveBag(s)| == LiveCount(s)
    decreases |s|
  {
    if s != [] {
      LiveBagCount(s[..|s| - 1]);
    }
  }

  /** The bag holds exactly the live slots' pairs, one per live slot. */
  lemma {:induction false} LiveBagMember<K, V>(s: seq<Slot<K, V>>, k: K, v: V)
    ensures (k, v) in LiveBag(s) <==> exists i :: 0 <= i < |s| && s[i] == Live(k, v)
    decreases |s|
  {
    if s != [] {
      var n := |s| - 1;
      LiveBagMember(s[..n], k, v);
      assert LiveBag(s) == LiveBag(s[..n]) + SlotBag(s[n]);
      assert (k, v) in SlotBag(s[n]) <==> s[n] == Live(k, v);
      if (k, v) in LiveBag(s[..n]) {
        var i :| 0 <= i < n && s[..n][i] == Live(k, v);
        assert s[i] == Live(k, v);
      }
      if exists i :: 0 <= i < |s| && s[i] == Live(k, v) {
        var i :| 0 <= i < |s| && s[i] == Live(k, v);
        if i < n { assert s[..n][i] == Live(k, v); }
      }
    }
  }

  /** `get_keys` lists one key per live slot, and exactly the keys of live slots. */
  lemma {:induction false} LiveKeysMember<K, V>(s: seq<Slot<K, V>>, k: K)
    ensures |LiveKeys(s)| == LiveCount(s)
    ensures k in LiveKeys(s) <==> exists i :: 0 <= i < |s| && s[i].Live? && s[i].key == k
    decreases |s|
  {
    if s != [] {
      var n := |s| - 1;
      var p := s[..n];
      LiveKeysMember(p, k);
      var tail := if s[n].Live? then [s[n].key] else [];
      assert LiveKeys(s) == LiveKeys(p) + tail;
      assert k in LiveKeys(s) <==> k in LiveKeys(p) || k in tail;
      if k in LiveKeys(p) {
        var i :| 0 <= i < n && p[i].Live? && p[i].key == k;
        assert s[i] == p[i];
      }
      if exists i :: 0 <= i < |s| && s[i].Live? && s[i].key == k {
        var i :| 0 <= i < |s| && s[i].Live? && s[i].key == k;
        if i < n { assert p[i] == s[i]; }
      }
    }
  }

  /** A key is absent exactly when no pair in the bag carries it. */
  lemma AbsentByBag<K, V>(s: seq<Slot<K, V>>, k: K)
    ensures Absent(s, k) <==> forall v :: (k, v) !in LiveBag(s)
  {
    if !Absent(s, k) {
      var i :| 0 <= i < |s| && s[i].Live? && s[i].key == k;
      LiveBagMember(s, k, s[i].value);
    }
    forall v | (k, v) in LiveBag(s) ensures !Absent(s, k) {
      LiveBagMember(s, k, v);
    }
  }

  lemma {:induction false} BlankCounts<K, V>(s: seq<Slot<K, V>>)
    requires forall i :: 0 <= i < |s| ==> s[i].Empty?
    ensures LiveCount(s) == 0 && LiveBag(s) == multiset{} && LiveKeys(s) == []
    decreases |s|
  {
    if s != [] { BlankCounts(s[..|s| - 1]); }
  }

  /** A table of empty slots: nothing live, no tombstones, and `get_keys` is empty. */
  lemma BlankTable<K, V>(s: seq<Slot<K, V>>, hash: K -> nat)
    requires |s| > 0 && forall i :: 0 <= i < |s| ==> s[i].Empty?
    ensures LiveCount(s) == 0 && LiveBag(s) == multiset{} && LiveKeys(s) == []
    ensures NoTombs(s) && Coherent(s, hash)
  {
    BlankCounts(s);
  }

  // ---------------------------------------------------------------------
  // put

  /** After the probing part of `put(k, v)`, `get` stops for `k` exactly at the slot that was written. */
  lemma PlacedLocates<K, V>(s: seq<Slot<K, V>>, hash: K -> nat, k: K, v: V)
    requires |s| > 0 && Placed(s, hash, k, v).Some?
    ensures Locate(Placed(s, hash, k, v).value, hash, Finding, k) == Locate(s, hash, Placing, k)
  {
    var t := Placed(s, hash, k, v).value;
    var m, home := |s|, hash(k) % |s|;
    var p := FirstStop(s, Placing, k, home, 0).value;
    var i := ProbeIndex(home, p, m);
    assert t == s[i := Live(k, v)];
    forall j | 0 <= j < p ensures !Stops(Finding, t[ProbeIndex(home, j, m)], k) {
      // every slot probed before i is live with another key, so it is not i itself
      assert !Stops(Placing, s[ProbeIndex(home, j, m)], k);
    }
    FirstStopIs(t, Finding, k, home, 0, p);
  }

  /** `get(k)` right after `put(k, v)` returns `v`. */
  lemma PlacedThenLookup<K, V>(s: seq<Slot<K, V>>, hash: K -> nat, k: K, v: V)
    requires |s| > 0 && Placed(s, hash, k, v).Some?
    ensures Lookup(Placed(s, hash, k, v).value, hash, k) == Returns(Some(v))
  {
    PlacedLocates(s, hash, k, v);
  }

  /** Everything the probing part of `put(k, v)` does to the table, when it ends. */
  lemma PlacedEffect<K, V>(s: seq<Slot<K, V>>, hash: K -> nat, k: K, v: V)
    requires |s| > 0 && Placed(s, hash, k, v).Some?
    ensures |Placed(s, hash, k, v).value| == |s|
    ensures Lookup(Placed(s, hash, k, v).value, hash, k) == Returns(Some(v))
    ensures LiveCount(Placed(s, hash, k, v).value) <= LiveCount(s) + 1
    ensures var i := Locate(s, hash, Placing, k).value;
      (s[i].Live? ==> s[i].key == k && LiveCount(Placed(s, hash, k, v).value) == LiveCount(s)) &&
      (!s[i].Live? ==> LiveCount(Placed(s, hash, k, v).value) == LiveCount(s) + 1) &&
      forall j :: 0 <= j < |s| && j != i ==> Placed(s, hash, k, v).value[j] == s[j]
    ensures LiveBag(Placed(s, hash, k, v).value) + SlotBag(s[Locate(s, hash, Placing, k).value]) ==
      LiveBag(s) + multiset{(k, v)}
    ensures Absent(s, k) ==> LiveBag(Placed(s, hash, k, v).value) == LiveBag(s) + multiset{(k, v)}
    ensures NoTombs(s) && Lookup(s, hash, k).Returns? && Lookup(s, hash, k).value.Some? ==>
      LiveBag(Placed(s, hash, k, v).value) + multiset{(k, Lookup(s, hash, k).value.value)} == LiveBag(s) + multiset{(k, v)}
    ensures NoTombs(s) ==> NoTombs(Placed(s, hash, k, v).value)
    ensures Coherent(s, hash) && (NoTombs(s) || Absent(s, k)) ==> Coherent(Placed(s, hash, k, v).value, hash)
  {
    var i := Locate(s, hash, Placing, k).value;
    LiveCountUpdate(s, i, Live(k, v));
    LiveBagUpdate(s, i, Live(k, v));
    PlacedThenLookup(s, hash, k, v);
    if !s[i].Tomb? {
      PlacingFindsSame(s, hash, k);
    }
    if Coherent(s, hash) {
      PlacedKeepsCoherent(s, hash, k, v);
    }
  }

  /**
   * When `put`'s loop stops at an empty slot or a live entry, `get`'s loop
   * stops at the same slot: every slot before it is live with another key.
   */
  lemma PlacingFindsSame<K, V>(s: seq<Slot<K, V>>, hash: K -> nat, k: K)
    requires |s| > 0 && Locate(s, hash, Placing, k).Some? && !s[Locate(s, hash, Placing, k).value].Tomb?
    ensures Locate(s, hash, Finding, k) == Locate(s, hash, Placing, k)
    ensures var i := Locate(s, hash, Placing, k).value;
      Lookup(s, hash, k) == Returns(if s[i].Empty? then None else Some(s[i].value)) &&
      (s[i].Live? ==> s[i] == Live(k, s[i].value))
  {
    var m, home := |s|, hash(k) % |s|;
    var p := FirstStop(s, Placing, k, home, 0).value;
    forall j | 0 <= j < p ensures !Stops(Finding, s[ProbeIndex(home, j, m)], k) {
      assert !Stops(Placing, s[ProbeIndex(home, j, m)], k);
    }
    FirstStopIs(s, Finding, k, home, 0, p);
  }

  /** `put(k, v)` does not move where `get` finds a live entry of another key. */
  lemma PlacedKeepsLocate<K, V>(s: seq<Slot<K, V>>, hash: K -> nat, k: K, v: V, k2: K, j: nat)
    requires |s| > 0 && Placed(s, hash, k, v).Some? && k2 != k
    requires Locate(s, hash, Finding, k2) == Some(j) && s[j].Live?
    ensures Locate(Placed(s, hash, k, v).value, hash, Finding, k2) == Some(j)
  {
    var t := Placed(s, hash, k, v).value;
    var i := Locate(s, hash, Placing, k).value;
    assert t == s[i := Live(k, v)];
    var m, home := |s|, hash(k2) % |s|;
    var p := FirstStop(s, Finding, k2, home, 0).value;
    forall q | 0 <= q < p ensures !Stops(Finding, t[ProbeIndex(home, q, m)], k2) {
      assert !Stops(Finding, s[ProbeIndex(home, q, m)], k2);
    }
    assert ProbeIndex(home, p, m) == j != i;
    FirstStopIs(t, Finding, k2, home, 0, p);
  }

  /** Every other key keeps the value `get` returns for it. */
  lemma PlacedKeepsOthers<K, V>(s: seq<Slot<K, V>>, hash: K -> nat, k: K, v: V, k2: K, w: V)
    requires |s| > 0 && Placed(s, hash, k, v).Some? && k2 != k
    requires Lookup(s, hash, k2) == Returns(Some(w))
    ensures Lookup(Placed(s, hash, k, v).value, hash, k2) == Returns(Some(w))
  {
    var j := Locate(s, hash, Finding, k2).value;
    PlacedKeepsLocate(s, hash, k, v, k2, j);
  }

  /**
   * On a coherent table, `put` keeps every live entry the one `get` finds,
   * except when it writes `k` into a tombstone while `k` is live further
   * along the probe path: then `k` is live twice.
   */
  lemma PlacedKeepsCoherent<K, V>(s: seq<Slot<K, V>>, hash: K -> nat, k: K, v: V)
    requires Coherent(s, hash) && Placed(s, hash, k, v).Some?
    ensures Coherent(Placed(s, hash, k, v).value, hash) <==>
      Absent(s, k) || !s[Locate(s, hash, Placing, k).value].Tomb?
  {
    var t := Placed(s, hash, k, v).value;
    var i := Locate(s, hash, Placing, k).value;
    var m := |s|;
    assert t == s[i := Live(k, v)];
    PlacedLocates(s, hash, k, v);
    if Absent(s, k) || !s[i].Tomb? {
      if !s[i].Tomb? {
        PlacingFindsSame(s, hash, k);
      }
      assert forall j :: 0 <= j < m && j != i && s[j].Live? ==> s[j].key != k;
      forall j | 0 <= j < m && t[j].Live? ensures Locate(t, hash, Finding, t[j].key) == Some(j) {
        if j != i {
          assert t[j] == s[j];
          PlacedKeepsLocate(s, hash, k, v, t[j].key, j);
        }
      }
    } else {
      var j :| 0 <= j < m && s[j].Live? && s[j].key == k;
      assert t[j] == s[j] && Locate(t, hash, Finding, k) == Some(i) != Some(j);
    }
  }

  // ---------------------------------------------------------------------
  // remove, get and contains_key

  /** `remove(k)` takes out the pair `get(k)` returned, or changes nothing when `get(k)` is None. */
  lemma TombstonedBag<K, V>(s: seq<Slot<K, V>>, hash: K -> nat, k: K)
    requires |s| > 0 && Lookup(s, hash, k).Returns?
    ensures Tombstoned(s, hash, k).Returns?
    ensures Lookup(s, hash, k).value.None? ==> Tombstoned(s, hash, k).value == s
    ensures Lookup(s, hash, k).value.Some? ==>
      var t := Tombstoned(s, hash, k).value;
      LiveBag(t) + multiset{(k, Lookup(s, hash, k).value.value)} == LiveBag(s) &&
      LiveCount(t) + 1 == LiveCount(s)
  {
    var i := Locate(s, hash, Finding, k).value;
    if s[i].Live? {
      LiveBagUpdate(s, i, Tomb(k, s[i].value));
      LiveCountUpdate(s, i, Tomb(k, s[i].value));
    }
  }

  /** On a coherent table, `remove(k)` keeps it coherent and `get(k)` finds no value afterwards. */
  lemma TombstonedHidesKey<K, V>(s: seq<Slot<K, V>>, hash: K -> nat, k: K)
    requires Coherent(s, hash) && Tombstoned(s, hash, k).Returns?
    ensures Coherent(Tombstoned(s, hash, k).value, hash)
    ensures Absent(Tombstoned(s, hash, k).value, k)
    ensures !(Lookup(Tombstoned(s, hash, k).value, hash, k).Returns? && Lookup(Tombstoned(s, hash, k).value, hash, k).value.Some?)
  {
    var t := Tombstoned(s, hash, k).value;
    var i := Locate(s, hash, Finding, k).value;
    var m := |s|;
    if s[i].Live? {
      assert t == s[i := Tomb(k, s[i].value)];
      forall j | 0 <= j < m && t[j].Live? ensures Locate(t, hash, Finding, t[j].key) == Some(j) {
        assert t[j] == s[j];
        var k2, home := t[j].key, hash(t[j].key) % m;
        var p := FirstStop(s, Finding, k2, home, 0).value;
        forall q | 0 <= q < p ensures !Stops(Finding, t[ProbeIndex(home, q, m)], k2) {
          assert !Stops(Finding, s[ProbeIndex(home, q, m)], k2);
        }
        FirstStopIs(t, Finding, k2, home, 0, p);
      }
    }
  }

  /** On a coherent table `get(k)` returns `v` exactly when (k, v) is a live pair. */
  lemma LookupMeansLive<K, V>(s: seq<Slot<K, V>>, hash: K -> nat, k: K, v: V)
    requires Coherent(s, hash)
    ensures Lookup(s, hash, k) == Returns(Some(v)) <==> (k, v) in LiveBag(s)
  {
    LiveBagMember(s, k, v);
    if (k, v) in LiveBag(s) {
      var i :| 0 <= i < |s| && s[i] == Live(k, v);
      assert Locate(s, hash, Finding, k) == Some(i);
    }
    if Lookup(s, hash, k) == Returns(Some(v)) {
      var i := Locate(s, hash, Finding, k).value;
      assert s[i] == Live(k, v);
    }
  }

  /**
   * Whenever `get(k)` returns a value, `contains_key(k)` returns true.  The
   * converse fails: `contains_key` also answers true at a tombstone holding `k`
   * (see ProbingExamples.ContainsSeesTombstone).
   */
  lemma LookupThenMember<K, V>(s: seq<Slot<K, V>>, hash: K -> nat, k: K)
    requires |s| > 0 && Lookup(s, hash, k).Returns? && Lookup(s, hash, k).value.Some?
    ensures Member(s, hash, k) == Returns(true)
  {
    var m, home := |s|, hash(k) % |s|;
    var p := FirstStop(s, Finding, k, home, 0).value;
    assert Stops(Testing, s[ProbeIndex(home, p, m)], k);
    var q := FirstStop(s, Testing, k, home, 0).value;
    assert q <= p;
    if q < p {
      assert !Stops(Finding, s[ProbeIndex(home, q, m)], k);
    }
  }

  /** On a coherent table no live key repeats: the slots before a live one do not hold its key. */
  lemma CoherentPrefixAbsent<K, V>(s: seq<Slot<K, V>>, hash: K -> nat, i: nat)
    requires Coherent(s, hash) && i < |s| && s[i].Live?
    ensures forall v :: (s[i].key, v) !in LiveBag(s[..i])
  {
    forall v ensures (s[i].key, v) !in LiveBag(s[..i]) {
      LiveBagMember(s[..i], s[i].key, v);
    }
  }
}
