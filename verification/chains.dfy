/**
 * The buckets of the separate-chaining hash map (hash_map_sc.py) taken as
 * values: each bucket is a chain of (key, value) pairs.  `Represents` ties a
 * bucket array to the map from keys to values that it stores; the lemmas
 * say how the chain operations used by `put`, `remove` and `resize_table`
 * change the stored map, and what `get_keys` and `empty_buckets` see.
 *
 * The linked list behind a chain is not part of this model.  Its `contains`
 * is `Find`, its `insert` puts the new pair at the front of the chain, and
 * its `remove` takes out the first pair with the key; no contract depends on
 * where in a chain a pair sits.
 */
module Chains {
  import opened Wrappers

  /** Position of the first pair with key `k` in a chain. */
  function Find<K(==), V>(c: seq<(K, V)>, k: K): (r: Option<nat>)
    ensures r.Some? ==> r.value < |c| && c[r.value].0 == k && forall j :: 0 <= j < r.value ==> c[j].0 != k
    ensures r.None? ==> forall j :: 0 <= j < |c| ==> c[j].0 != k
  {
    if c == [] then None
    else if c[0].0 == k then Some(0)
    else
      match Find(c[1..], k)
      case None => None
      case Some(i) => Some(i + 1)
  }

  /** The chain after the linked list's `remove(k)`. */
  function Delete<K(==), V>(c: seq<(K, V)>, k: K): (r: seq<(K, V)>)
    ensures Find(c, k).None? ==> r == c
    ensures Find(c, k).Some? ==> multiset(r) + multiset{c[Find(c, k).value]} == multiset(c) && |r| + 1 == |c|
  {
    match Find(c, k)
    case None => c
    case Some(j) =>
      assert c == c[..j] + [c[j]] + c[j + 1..];
      c[..j] + c[j + 1..]
  }

  /** No key occurs twice in a chain. */
  predicate DistinctKeys<K(==), V>(c: seq<(K, V)>)
  {
    forall i, j :: 0 <= i < j < |c| ==> c[i].0 != c[j].0
  }

  /** No element occurs twice. */
  predicate Distinct<T(==)>(s: seq<T>)
  {
    forall i, j :: 0 <= i < j < |s| ==> s[i] != s[j]
  }

  /** Number of pairs in all chains. */
  function TotalEntries<K, V>(b: seq<seq<(K, V)>>): nat
  {
    if b == [] then 0 else TotalEntries(b[..|b| - 1]) + |b[|b| - 1]|
  }

  /** Number of empty chains. */
  function EmptyCount<K, V>(b: seq<seq<(K, V)>>): nat
  {
    if b == [] then 0 else EmptyCount(b[..|b| - 1]) + (if |b[|b| - 1]| == 0 then 1 else 0)
  }

  /** The keys of a chain, front to back. */
  function ChainKeys<K, V>(c: seq<(K, V)>): seq<K>
  {
    if c == [] then [] else ChainKeys(c[..|c| - 1]) + [c[|c| - 1].0]
  }

  /** The keys of all chains, bucket by bucket in index order. */
  function KeysOf<K, V>(b: seq<seq<(K, V)>>): seq<K>
  {
    if b == [] then [] else KeysOf(b[..|b| - 1]) + ChainKeys(b[|b| - 1])
  }

  /** Every pair of chain `i` has a key that hashes to `i` modulo `m`. */
  ghost predicate Placement<K, V>(b: seq<seq<(K, V)>>, m: nat, hash: K -> nat)
  {
    m > 0 && forall i, j :: 0 <= i < |b| && 0 <= j < |b[i]| ==> hash(b[i][j].0) % m == i
  }

  /** Every pair sits in the bucket its key hashes to, and agrees with `m`. */
  ghost predicate Agrees<K, V>(b: seq<seq<(K, V)>>, m: map<K, V>, hash: K -> nat)
  {
    forall i, j :: 0 <= i < |b| && 0 <= j < |b[i]| ==>
      b[i][j].0 in m && m[b[i][j].0] == b[i][j].1 && hash(b[i][j].0) % |b| == i
  }

  /** Every key of `m` is in the bucket it hashes to. */
  ghost predicate Covers<K, V>(b: seq<seq<(K, V)>>, m: map<K, V>, hash: K -> nat)
  {
    forall k :: k in m ==> |b| > 0 && exists j :: 0 <= j < |b[hash(k) % |b|]| && b[hash(k) % |b|][j].0 == k
  }

  /** No chain holds a key twice. */
  predicate ChainsDistinct<K(==), V>(b: seq<seq<(K, V)>>)
  {
    forall i :: 0 <= i < |b| ==> DistinctKeys(b[i])
  }

  /**
   * The chains store exactly the map `m`: every pair sits in the bucket its
   * key hashes to and agrees with `m`, every key of `m` is in its bucket, no
   * chain holds a key twice, and there are as many pairs as keys.
   */
  ghost predicate Represents<K, V>(b: seq<seq<(K, V)>>, m: map<K, V>, hash: K -> nat)
  {
    Agrees(b, m, hash) && Covers(b, m, hash) && ChainsDistinct(b) && TotalEntries(b) == |m|
  }

  lemma {:induction false} TotalEntriesUpdate<K, V>(b: seq<seq<(K, V)>>, i: nat, c: seq<(K, V)>)
    requires i < |b|
    ensures TotalEntries(b[i := c]) + |b[i]| == TotalEntries(b) + |c|
    decreases |b|
  {
    var n := |b| - 1;
    assert b[i := c][..n] == if i < n then b[..n][i := c] else b[..n];
    if i < n {
      TotalEntriesUpdate(b[..n], i, c);
    }
  }

  lemma MapRemoveCard<K, V>(m: map<K, V>, k: K)
    requires k in m
    ensures |m - {k}| == |m| - 1
  {
    assert (m - {k}).Keys == m.Keys - {k};
  }

  lemma MapRemoveAbsent<K, V>(m: map<K, V>, k: K)
    requires k !in m
    ensures m - {k} == m
  {
  }

  /** A table of `n` empty chains stores the empty map. */
  lemma {:induction false} RepresentsEmpty<K, V>(n: nat, hash: K -> nat)
    ensures Represents(seq<seq<(K, V)>>(n, _ => []), map[], hash)
    ensures EmptyCount(seq<seq<(K, V)>>(n, _ => [])) == n
  {
    if n > 0 {
      RepresentsEmpty<K, V>(n - 1, hash);
      assert seq<seq<(K, V)>>(n, _ => [])[..n - 1] == seq<seq<(K, V)>>(n - 1, _ => []);
    }
  }

  /** `get`: a key is stored exactly when `Find` sees it in its bucket, with the stored value. */
  lemma FindRepresents<K, V>(b: seq<seq<(K, V)>>, m: map<K, V>, hash: K -> nat, k: K)
    requires Represents(b, m, hash) && |b| > 0
    ensures Find(b[hash(k) % |b|], k).Some? <==> k in m
    ensures Find(b[hash(k) % |b|], k).Some? ==> b[hash(k) % |b|][Find(b[hash(k) % |b|], k).value].1 == m[k]
  {
  }

  /** `put` of a new key: the pair goes into its bucket, and the map gains it. */
  lemma RepresentsInsert<K, V>(b: seq<seq<(K, V)>>, m: map<K, V>, hash: K -> nat, k: K, v: V)
    requires Represents(b, m, hash) && |b| > 0 && k !in m
    ensures Represents(b[hash(k) % |b| := [(k, v)] + b[hash(k) % |b|]], m[k := v], hash)
  {
    var i := hash(k) % |b|;
    TotalEntriesUpdate(b, i, [(k, v)] + b[i]);
    InsertAgrees(b, m, hash, k, v);
    InsertCovers(b, m, hash, k, v);
    InsertDistinct(b, m, hash, k, v);
  }

  lemma InsertAgrees<K, V>(b: seq<seq<(K, V)>>, m: map<K, V>, hash: K -> nat, k: K, v: V)
    requires Agrees(b, m, hash) && |b| > 0 && k !in m
    ensures Agrees(b[hash(k) % |b| := [(k, v)] + b[hash(k) % |b|]], m[k := v], hash)
  {
    var i := hash(k) % |b|;
    var b': seq<seq<(K, V)>> := b[i := [(k, v)] + b[i]];
    forall i2, j | 0 <= i2 < |b'| && 0 <= j < |b'[i2]|
      ensures b'[i2][j].0 in m[k := v] && m[k := v][b'[i2][j].0] == b'[i2][j].1 && hash(b'[i2][j].0) % |b'| == i2
    {
      if i2 == i && j > 0 {
        assert b'[i2][j] == b[i][j - 1] && b[i][j - 1].0 in m;
      }
    }
  }

  lemma InsertCovers<K, V>(b: seq<seq<(K, V)>>, m: map<K, V>, hash: K -> nat, k: K, v: V)
    requires Covers(b, m, hash) && |b| > 0
    ensures Covers(b[hash(k) % |b| := [(k, v)] + b[hash(k) % |b|]], m[k := v], hash)
  {
    var i := hash(k) % |b|;
    var b': seq<seq<(K, V)>> := b[i := [(k, v)] + b[i]];
    forall k2 | k2 in m[k := v]
      ensures exists j :: 0 <= j < |b'[hash(k2) % |b'|]| && b'[hash(k2) % |b'|][j].0 == k2
    {
      if k2 == k {
        assert b'[i][0].0 == k;
      } else {
        var j :| 0 <= j < |b[hash(k2) % |b|]| && b[hash(k2) % |b|][j].0 == k2;
        if hash(k2) % |b| == i {
          assert b'[i][j + 1].0 == k2;
        } else {
          assert b'[hash(k2) % |b'|][j].0 == k2;
        }
      }
    }
  }

  lemma InsertDistinct<K, V>(b: seq<seq<(K, V)>>, m: map<K, V>, hash: K -> nat, k: K, v: V)
    requires Represents(b, m, hash) && |b| > 0 && k !in m
    ensures ChainsDistinct(b[hash(k) % |b| := [(k, v)] + b[hash(k) % |b|]])
  {
    var i := hash(k) % |b|;
    var c: seq<(K, V)> := [(k, v)] + b[i];
    var b': seq<seq<(K, V)>> := b[i := c];
    forall i2 | 0 <= i2 < |b'|
      ensures DistinctKeys(b'[i2])
    {
      if i2 == i {
        forall j1, j2 | 0 <= j1 < j2 < |c|
          ensures c[j1].0 != c[j2].0
        {
          if j1 > 0 {
            assert c[j1] == b[i][j1 - 1] && c[j2] == b[i][j2 - 1];
          } else {
            assert c[j2] == b[i][j2 - 1];
          }
        }
      }
    }
  }

  /** `put` of a stored key: the pair at position `j` of its bucket takes the new value. */
  lemma RepresentsOverwrite<K, V>(b: seq<seq<(K, V)>>, m: map<K, V>, hash: K -> nat, k: K, v: V, j: nat)
    requires Represents(b, m, hash) && |b| > 0
    requires j < |b[hash(k) % |b|]| && b[hash(k) % |b|][j].0 == k
    ensures Represents(b[hash(k) % |b| := b[hash(k) % |b|][j := (k, v)]], m[k := v], hash)
  {
    var i := hash(k) % |b|;
    TotalEntriesUpdate(b, i, b[i][j := (k, v)]);
    assert k in m;
    OverwriteAgrees(b, m, hash, k, v, j);
    OverwriteCovers(b, m, hash, k, v, j);
    OverwriteDistinct(b, hash, k, v, j);
  }

  lemma OverwriteAgrees<K, V>(b: seq<seq<(K, V)>>, m: map<K, V>, hash: K -> nat, k: K, v: V, j: nat)
    requires Agrees(b, m, hash) && ChainsDistinct(b) && |b| > 0
    requires j < |b[hash(k) % |b|]| && b[hash(k) % |b|][j].0 == k
    ensures Agrees(b[hash(k) % |b| := b[hash(k) % |b|][j := (k, v)]], m[k := v], hash)
  {
    var i := hash(k) % |b|;
    var b': seq<seq<(K, V)>> := b[i := b[i][j := (k, v)]];
    forall i2, j2 | 0 <= i2 < |b'| && 0 <= j2 < |b'[i2]|
      ensures b'[i2][j2].0 in m[k := v] && m[k := v][b'[i2][j2].0] == b'[i2][j2].1 && hash(b'[i2][j2].0) % |b'| == i2
    {
      if i2 == i && j2 != j {
        assert b'[i2][j2] == b[i][j2] && DistinctKeys(b[i]);
        assert b[i][j2].0 != k by {
          if j2 < j {
            assert b[i][j2].0 != b[i][j].0;
          } else {
            assert b[i][j].0 != b[i][j2].0;
          }
        }
      } else if i2 != i {
        assert b'[i2][j2] == b[i2][j2];
      }
    }
  }

  lemma OverwriteCovers<K, V>(b: seq<seq<(K, V)>>, m: map<K, V>, hash: K -> nat, k: K, v: V, j: nat)
    requires Covers(b, m, hash) && |b| > 0 && k in m
    requires j < |b[hash(k) % |b|]| && b[hash(k) % |b|][j].0 == k
    ensures Covers(b[hash(k) % |b| := b[hash(k) % |b|][j := (k, v)]], m[k := v], hash)
  {
    var i := hash(k) % |b|;
    var b': seq<seq<(K, V)>> := b[i := b[i][j := (k, v)]];
    forall k2 | k2 in m[k := v]
      ensures exists j2 :: 0 <= j2 < |b'[hash(k2) % |b'|]| && b'[hash(k2) % |b'|][j2].0 == k2
    {
      var j2 :| 0 <= j2 < |b[hash(k2) % |b|]| && b[hash(k2) % |b|][j2].0 == k2;
      assert b'[hash(k2) % |b'|][j2].0 == k2;
    }
  }

  lemma OverwriteDistinct<K, V>(b: seq<seq<(K, V)>>, hash: K -> nat, k: K, v: V, j: nat)
    requires ChainsDistinct(b) && |b| > 0
    requires j < |b[hash(k) % |b|]| && b[hash(k) % |b|][j].0 == k
    ensures ChainsDistinct(b[hash(k) % |b| := b[hash(k) % |b|][j := (k, v)]])
  {
    var i := hash(k) % |b|;
    var c: seq<(K, V)> := b[i][j := (k, v)];
    var b': seq<seq<(K, V)>> := b[i := c];
    forall i2 | 0 <= i2 < |b'|
      ensures DistinctKeys(b'[i2])
    {
      if i2 == i {
        forall j1, j2 | 0 <= j1 < j2 < |c|
          ensures c[j1].0 != c[j2].0
        {
          assert c[j1].0 == b[i][j1].0 && c[j2].0 == b[i][j2].0;
        }
      }
    }
  }

  /** Position `x` of a sequence with its element at `j` taken out. */
  lemma CutAt<T>(s: seq<T>, j: nat, x: nat)
    requires j < |s| && x < |s| - 1
    ensures |s[..j] + s[j + 1..]| == |s| - 1
    ensures (s[..j] + s[j + 1..])[x] == s[if x < j then x else x + 1]
  {
  }

  /** `remove` of a stored key: its pair leaves the bucket, and the map loses it. */
  lemma RepresentsDelete<K, V>(b: seq<seq<(K, V)>>, m: map<K, V>, hash: K -> nat, k: K)
    requires Represents(b, m, hash) && |b| > 0 && k in m
    ensures Represents(b[hash(k) % |b| := Delete(b[hash(k) % |b|], k)], m - {k}, hash)
  {
    var i := hash(k) % |b|;
    var j := Find(b[i], k).value;
    assert Delete(b[i], k) == b[i][..j] + b[i][j + 1..];
    TotalEntriesUpdate(b, i, Delete(b[i], k));
    MapRemoveCard(m, k);
    DeleteAgrees(b, m, hash, k, j);
    DeleteCovers(b, m, hash, k, j);
    DeleteDistinct(b, hash, k, j);
  }

  lemma DeleteAgrees<K, V>(b: seq<seq<(K, V)>>, m: map<K, V>, hash: K -> nat, k: K, j: nat)
    requires Agrees(b, m, hash) && ChainsDistinct(b) && |b| > 0
    requires j < |b[hash(k) % |b|]| && b[hash(k) % |b|][j].0 == k
    ensures Agrees(b[hash(k) % |b| := b[hash(k) % |b|][..j] + b[hash(k) % |b|][j + 1..]], m - {k}, hash)
  {
    var i := hash(k) % |b|;
    var b': seq<seq<(K, V)>> := b[i := b[i][..j] + b[i][j + 1..]];
    forall i2, j2 | 0 <= i2 < |b'| && 0 <= j2 < |b'[i2]|
      ensures b'[i2][j2].0 in m - {k} && (m - {k})[b'[i2][j2].0] == b'[i2][j2].1 && hash(b'[i2][j2].0) % |b'| == i2
    {
      if i2 == i {
        var j3 := if j2 < j then j2 else j2 + 1;
        CutAt(b[i], j, j2);
        assert b'[i2][j2] == b[i][j3] && DistinctKeys(b[i]);
        assert b[i][j3].0 != k by {
          if j3 < j {
            assert b[i][j3].0 != b[i][j].0;
          } else {
            assert b[i][j].0 != b[i][j3].0;
          }
        }
      } else {
        assert b'[i2][j2] == b[i2][j2];
      }
    }
  }

  lemma DeleteCovers<K, V>(b: seq<seq<(K, V)>>, m: map<K, V>, hash: K -> nat, k: K, j: nat)
    requires Covers(b, m, hash) && ChainsDistinct(b) && |b| > 0
    requires j < |b[hash(k) % |b|]| && b[hash(k) % |b|][j].0 == k
    ensures Covers(b[hash(k) % |b| := b[hash(k) % |b|][..j] + b[hash(k) % |b|][j + 1..]], m - {k}, hash)
  {
    var i := hash(k) % |b|;
    var b': seq<seq<(K, V)>> := b[i := b[i][..j] + b[i][j + 1..]];
    forall k2 | k2 in m - {k}
      ensures exists j2 :: 0 <= j2 < |b'[hash(k2) % |b'|]| && b'[hash(k2) % |b'|][j2].0 == k2
    {
      var j2 :| 0 <= j2 < |b[hash(k2) % |b|]| && b[hash(k2) % |b|][j2].0 == k2;
      if hash(k2) % |b| == i {
        assert j2 != j;
        var j3 := if j2 < j then j2 else j2 - 1;
        CutAt(b[i], j, j3);
        assert b'[i][j3].0 == k2;
      } else {
        assert b'[hash(k2) % |b'|][j2].0 == k2;
      }
    }
  }

  lemma DeleteDistinct<K, V>(b: seq<seq<(K, V)>>, hash: K -> nat, k: K, j: nat)
    requires ChainsDistinct(b) && |b| > 0
    requires j < |b[hash(k) % |b|]|
    ensures ChainsDistinct(b[hash(k) % |b| := b[hash(k) % |b|][..j] + b[hash(k) % |b|][j + 1..]])
  {
    var i := hash(k) % |b|;
    var c: seq<(K, V)> := b[i][..j] + b[i][j + 1..];
    var b': seq<seq<(K, V)>> := b[i := c];
    forall i2 | 0 <= i2 < |b'|
      ensures DistinctKeys(b'[i2])
    {
      if i2 == i {
        forall j1, j2 | 0 <= j1 < j2 < |c|
          ensures c[j1].0 != c[j2].0
        {
          var j3 := if j2 < j then j2 else j2 + 1;
          var j4 := if j1 < j then j1 else j1 + 1;
          CutAt(b[i], j, j1);
          CutAt(b[i], j, j2);
          assert c[j1] == b[i][j4] && c[j2] == b[i][j3] && j4 < j3;
        }
      }
    }
  }

  /** `remove` of a key that is not stored changes no chain. */
  lemma DeleteAbsent<K, V>(b: seq<seq<(K, V)>>, m: map<K, V>, hash: K -> nat, k: K)
    requires Represents(b, m, hash) && |b| > 0 && k !in m
    ensures Delete(b[hash(k) % |b|], k) == b[hash(k) % |b|]
  {
    FindRepresents(b, m, hash, k);
  }

  /** `remove(k)`, stored or not: the table then stores the map without `k`. */
  lemma RepresentsRemove<K, V>(b: seq<seq<(K, V)>>, m: map<K, V>, hash: K -> nat, k: K)
    requires Represents(b, m, hash) && |b| > 0
    ensures Find(b[hash(k) % |b|], k).Some? <==> k in m
    ensures Represents(b[hash(k) % |b| := Delete(b[hash(k) % |b|], k)], m - {k}, hash)
    ensures |m - {k}| == if k in m then |m| - 1 else |m|
  {
    FindRepresents(b, m, hash, k);
    if k in m {
      RepresentsDelete(b, m, hash, k);
      MapRemoveCard(m, k);
    } else {
      DeleteAbsent(b, m, hash, k);
      MapRemoveAbsent(m, k);
      var i := hash(k) % |b|;
      assert b[i := b[i]] == b;
    }
  }

  /** Whether `resize_table` has moved key `k` yet: its bucket comes before `i`, or it is among the first `j` pairs of bucket `i`. */
  ghost predicate Done<K, V>(k: K, hash: K -> nat, cap: nat, i: nat, chain: seq<(K, V)>, j: nat)
  {
    cap > 0 && (hash(k) % cap < i || (hash(k) % cap == i && exists j2 :: 0 <= j2 < j && j2 < |chain| && chain[j2].0 == k))
  }

  /**
   * How far `resize_table` has got: `moved` holds, with their values in `m`,
   * exactly the keys of the buckets before `i` of a table of capacity `cap`,
   * and those among the first `j` pairs of `chain`, the bucket `i` itself.
   */
  ghost predicate MovedSoFar<K, V>(moved: map<K, V>, m: map<K, V>, hash: K -> nat, cap: nat, i: nat, chain: seq<(K, V)>, j: nat)
  {
    (forall k :: k in moved ==> k in m && moved[k] == m[k] && Done(k, hash, cap, i, chain, j)) &&
    (forall k :: k in m && Done(k, hash, cap, i, chain, j) ==> k in moved)
  }

  /** Before the first pair of a bucket, which bucket it is makes no difference. */
  lemma RehashEnter<K, V>(moved: map<K, V>, m: map<K, V>, hash: K -> nat, cap: nat, i: nat, chain: seq<(K, V)>)
    requires MovedSoFar(moved, m, hash, cap, i, [], 0)
    ensures MovedSoFar(moved, m, hash, cap, i, chain, 0)
  {
    forall k
      ensures Done(k, hash, cap, i, chain, 0) == Done<K, V>(k, hash, cap, i, [], 0)
    {
    }
  }

  /** Moving the pair at `j` of bucket `i` into the new table keeps both tables in step. */
  lemma RehashStep<K, V>(b: seq<seq<(K, V)>>, m: map<K, V>, hash: K -> nat, t: seq<seq<(K, V)>>, moved: map<K, V>, i: nat, j: nat)
    requires Represents(b, m, hash) && i < |b| && j < |b[i]|
    requires Represents(t, moved, hash) && |t| > 0
    requires MovedSoFar(moved, m, hash, |b|, i, b[i], j)
    ensures b[i][j].0 !in moved
    ensures Represents(t[hash(b[i][j].0) % |t| := [b[i][j]] + t[hash(b[i][j].0) % |t|]], moved[b[i][j].0 := b[i][j].1], hash)
    ensures MovedSoFar(moved[b[i][j].0 := b[i][j].1], m, hash, |b|, i, b[i], j + 1)
  {
    var key, value := b[i][j].0, b[i][j].1;
    assert key in m && m[key] == value && hash(key) % |b| == i;
    assert DistinctKeys(b[i]);
    MovedSoFarStep(moved, m, hash, |b|, i, b[i], j);
    RepresentsInsert(t, moved, hash, key, value);
    assert [b[i][j]] == [(key, value)];
  }

  /** The pair at `j` of the bucket being moved is not yet moved, and moving it advances by one pair. */
  lemma MovedSoFarStep<K, V>(moved: map<K, V>, m: map<K, V>, hash: K -> nat, cap: nat, i: nat, chain: seq<(K, V)>, j: nat)
    requires MovedSoFar(moved, m, hash, cap, i, chain, j)
    requires j < |chain| && DistinctKeys(chain) && cap > 0
    requires chain[j].0 in m && m[chain[j].0] == chain[j].1 && hash(chain[j].0) % cap == i
    ensures chain[j].0 !in moved
    ensures MovedSoFar(moved[chain[j].0 := chain[j].1], m, hash, cap, i, chain, j + 1)
  {
    var key, value := chain[j].0, chain[j].1;
    assert key !in moved by {
      assert forall j2 :: 0 <= j2 < j ==> chain[j2].0 != key;
    }
    var moved' := moved[key := value];
    assert forall k :: k in moved' ==> k in m && moved'[k] == m[k] && Done(k, hash, cap, i, chain, j + 1) by {
      forall k | k in moved'
        ensures k in m && moved'[k] == m[k] && Done(k, hash, cap, i, chain, j + 1)
      {
        if k == key {
          assert chain[j].0 == k;
        } else if hash(k) % cap == i {
          var j2 :| 0 <= j2 < j && j2 < |chain| && chain[j2].0 == k;
          assert j2 < j + 1;
        }
      }
    }
    assert forall k :: k in m && Done(k, hash, cap, i, chain, j + 1) ==> k in moved' by {
      forall k | k in m && Done(k, hash, cap, i, chain, j + 1)
        ensures k in moved'
      {
        if k != key && hash(k) % cap == i {
          var j2 :| 0 <= j2 < j + 1 && j2 < |chain| && chain[j2].0 == k;
          assert j2 != j;
          assert Done(k, hash, cap, i, chain, j);
        }
      }
    }
  }

  /** After the whole of bucket `i`, the next bucket begins. */
  lemma RehashNext<K, V>(b: seq<seq<(K, V)>>, m: map<K, V>, hash: K -> nat, moved: map<K, V>, i: nat)
    requires Represents(b, m, hash) && i < |b|
    requires MovedSoFar(moved, m, hash, |b|, i, b[i], |b[i]|)
    ensures MovedSoFar(moved, m, hash, |b|, i + 1, [], 0)
  {
    forall k | k in m && hash(k) % |b| == i
      ensures k in moved
    {
      var j2 :| 0 <= j2 < |b[hash(k) % |b|]| && b[hash(k) % |b|][j2].0 == k;
    }
  }

  /** After every bucket, the new table holds the whole map. */
  lemma RehashDone<K, V>(b: seq<seq<(K, V)>>, m: map<K, V>, hash: K -> nat, moved: map<K, V>)
    requires Represents(b, m, hash)
    requires MovedSoFar(moved, m, hash, |b|, |b|, [], 0)
    ensures moved == m
  {
    forall k | k in m
      ensures k in moved
    {
    }
  }

  lemma {:induction false} ChainKeysAt<K, V>(c: seq<(K, V)>)
    ensures |ChainKeys(c)| == |c|
    ensures forall j :: 0 <= j < |c| ==> ChainKeys(c)[j] == c[j].0
    decreases |c|
  {
    if c != [] {
      ChainKeysAt(c[..|c| - 1]);
    }
  }

  /** One listed key per pair. */
  lemma {:induction false} KeysOfLength<K, V>(b: seq<seq<(K, V)>>)
    ensures |KeysOf(b)| == TotalEntries(b)
    decreases |b|
  {
    if b != [] {
      KeysOfLength(b[..|b| - 1]);
      ChainKeysAt(b[|b| - 1]);
    }
  }

  /** The listed keys are those of the pairs. */
  lemma {:induction false} KeysOfMember<K, V>(b: seq<seq<(K, V)>>, k: K)
    ensures k in KeysOf(b) <==> exists i, j :: 0 <= i < |b| && 0 <= j < |b[i]| && b[i][j].0 == k
    decreases |b|
  {
    if b != [] {
      var n := |b| - 1;
      KeysOfMember(b[..n], k);
      ChainKeysAt(b[n]);
      if k in KeysOf(b[..n]) {
        var i, j :| 0 <= i < n && 0 <= j < |b[..n][i]| && b[..n][i][j].0 == k;
        assert b[i][j].0 == k;
      }
      if k in ChainKeys(b[n]) {
        var j :| 0 <= j < |ChainKeys(b[n])| && ChainKeys(b[n])[j] == k;
        assert b[n][j].0 == k;
      }
      if exists i, j :: 0 <= i < |b| && 0 <= j < |b[i]| && b[i][j].0 == k {
        var i, j :| 0 <= i < |b| && 0 <= j < |b[i]| && b[i][j].0 == k;
        if i < n {
          assert b[..n][i][j].0 == k;
        } else {
          assert ChainKeys(b[n])[j] == k;
        }
      }
    }
  }

  /** Keys listed bucket by bucket are distinct when each chain has distinct keys hashing to its own index. */
  lemma {:induction false} KeysOfDistinct<K, V>(b: seq<seq<(K, V)>>, m: nat, hash: K -> nat)
    requires Placement(b, m, hash)
    requires forall i :: 0 <= i < |b| ==> DistinctKeys(b[i])
    ensures Distinct(KeysOf(b))
    ensures forall k :: k in KeysOf(b) ==> hash(k) % m < |b|
    decreases |b|
  {
    if b != [] {
      var n := |b| - 1;
      var front, back := KeysOf(b[..n]), ChainKeys(b[n]);
      assert Placement(b[..n], m, hash);
      KeysOfDistinct(b[..n], m, hash);
      ChainKeysAt(b[n]);
      forall k | k in back
        ensures hash(k) % m == n
      {
        var j :| 0 <= j < |back| && back[j] == k;
      }
      forall i, j | 0 <= i < j < |front + back|
        ensures (front + back)[i] != (front + back)[j]
      {
        if j < |front| {
        } else if i >= |front| {
          assert back[i - |front|] == b[n][i - |front|].0;
        } else {
          assert front[i] in front && back[j - |front|] in back;
        }
      }
      forall k | k in front + back
        ensures hash(k) % m < |b|
      {
      }
    }
  }

  /** `get_keys` lists every stored key exactly once, and nothing else. */
  lemma KeysOfRepresents<K, V>(b: seq<seq<(K, V)>>, m: map<K, V>, hash: K -> nat)
    requires Represents(b, m, hash)
    ensures |KeysOf(b)| == |m| && Distinct(KeysOf(b))
    ensures forall k :: k in KeysOf(b) <==> k in m
  {
    if |b| > 0 {
      KeysOfDistinct(b, |b|, hash);
    } else {
      assert KeysOf(b) == [];
    }
    KeysOfLength(b);
    forall k
      ensures k in KeysOf(b) <==> k in m
    {
      KeysOfMember(b, k);
    }
  }

  /** Each non-empty chain holds a pair, so at least |b| - (number of pairs) chains are empty. */
  lemma {:induction false} EmptyCountBounds<K, V>(b: seq<seq<(K, V)>>)
    ensures |b| - TotalEntries(b) <= EmptyCount(b) <= |b|
    ensures EmptyCount(b) == |b| <==> TotalEntries(b) == 0
    decreases |b|
  {
    if b != [] {
      EmptyCountBounds(b[..|b| - 1]);
    }
  }
}
