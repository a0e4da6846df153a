/**
 * Small tables on which the open-addressing probes of hash_map_oa.py do
 * something a caller might not expect.  Every key hashes to 1, so every
 * probe starts at slot 1, as it does for keys whose hash is one more than
 * a multiple of the capacity.
 * Each table is built from an empty one by the operations that `put` and
 * `remove` perform, and no `put` in these sequences is preceded by a
 * resize, because the load before each one is below one half.
 */
module ProbingExamples {
  import opened Wrappers
  import opened Probing

  function OneHash(k: int): nat
  {
    1
  }

  /**
   * With capacity 4 the probe from slot 1 visits only slots 1 and 2, and
   * `put(1)` and `put(2)` (the second at load 1/4, so no resize) fill them.
   */
  lemma PutsFillSlotsOneAndTwo()
    ensures Placed([Empty, Empty, Empty, Empty], OneHash, 1, 10) == Some([Empty, Live(1, 10), Empty, Empty])
    ensures Placed([Empty, Live(1, 10), Empty, Empty], OneHash, 2, 20) == Some([Empty, Live(1, 10), Live(2, 20), Empty])
  {
    var s1: seq<Slot<int, int>> := [Empty, Empty, Empty, Empty];
    ProbeStep(s1, Placing, 1, 1, 0);
    assert ProbeIndex(1, 0, 4) == 1 && Stops(Placing, s1[1], 1);
    assert FirstStop(s1, Placing, 1, 1, 0) == Some(0);
    assert OneHash(1) % |s1| == 1;
    assert Locate(s1, OneHash, Placing, 1) == Some(1);
    assert s1[1 := Live(1, 10)] == [Empty, Live(1, 10), Empty, Empty];
    var s2: seq<Slot<int, int>> := [Empty, Live(1, 10), Empty, Empty];
    ProbeStep(s2, Placing, 2, 1, 0);
    assert ProbeIndex(1, 0, 4) == 1 && !Stops(Placing, s2[1], 2);
    ProbeStep(s2, Placing, 2, 1, 1);
    assert ProbeIndex(1, 1, 4) == 2 && Stops(Placing, s2[2], 2);
    assert FirstStop(s2, Placing, 2, 1, 0) == Some(1);
    assert OneHash(2) % |s2| == 1;
    assert Locate(s2, OneHash, Placing, 2) == Some(2);
    assert s2[2 := Live(2, 20)] == [Empty, Live(1, 10), Live(2, 20), Empty];
  }

  /**
   * With capacity 3, `put(2)` runs at load 1/3, so without a resize, and
   * leaves two of the three slots live: a load above one half.
   */
  lemma OddCapacityPassesHalf()
    ensures Placed([Empty, Empty, Empty], OneHash, 1, 10) == Some([Empty, Live(1, 10), Empty])
    ensures Placed([Empty, Live(1, 10), Empty], OneHash, 2, 20) == Some([Empty, Live(1, 10), Live(2, 20)])
    ensures 2 * LiveCount([Empty, Live(1, 10), Empty]) < 3 && 2 * LiveCount([Empty, Live(1, 10), Live(2, 20)]) > 3
  {
    var s1: seq<Slot<int, int>> := [Empty, Empty, Empty];
    ProbeStep(s1, Placing, 1, 1, 0);
    assert ProbeIndex(1, 0, 3) == 1 && Stops(Placing, s1[1], 1);
    assert FirstStop(s1, Placing, 1, 1, 0) == Some(0);
    assert OneHash(1) % |s1| == 1;
    assert Locate(s1, OneHash, Placing, 1) == Some(1);
    assert s1[1 := Live(1, 10)] == [Empty, Live(1, 10), Empty];
    var s2: seq<Slot<int, int>> := [Empty, Live(1, 10), Empty];
    ProbeStep(s2, Placing, 2, 1, 0);
    assert ProbeIndex(1, 0, 3) == 1 && !Stops(Placing, s2[1], 2);
    ProbeStep(s2, Placing, 2, 1, 1);
    assert ProbeIndex(1, 1, 3) == 2 && Stops(Placing, s2[2], 2);
    assert FirstStop(s2, Placing, 2, 1, 0) == Some(1);
    assert OneHash(2) % |s2| == 1;
    assert Locate(s2, OneHash, Placing, 2) == Some(2);
    assert s2[2 := Live(2, 20)] == [Empty, Live(1, 10), Live(2, 20)];
    var s3: seq<Slot<int, int>> := [Empty, Live(1, 10), Live(2, 20)];
    var p1: seq<Slot<int, int>>, p2: seq<Slot<int, int>> := [Empty], [Empty, Live(1, 10)];
    assert p1[..0] == [] && p2[..1] == p1 && s2[..2] == p2 && s3[..2] == p2;
    assert LiveCount(p1) == 0 && LiveCount(p2) == 1;
    assert LiveCount(s2) == 1 && LiveCount(s3) == 2;
  }

  /**
   * In that table `get`, `contains_key` and `remove` of a third key never
   * leave their loops.
   */
  lemma ProbesSpinAtHalfLoad()
    ensures Lookup([Empty, Live(1, 10), Live(2, 20), Empty], OneHash, 3) == Spins
    ensures Member([Empty, Live(1, 10), Live(2, 20), Empty], OneHash, 3) == Spins
    ensures Tombstoned([Empty, Live(1, 10), Live(2, 20), Empty], OneHash, 3) == Spins
  {
    var s3: seq<Slot<int, int>> := [Empty, Live(1, 10), Live(2, 20), Empty];
    ProbeStep(s3, Finding, 3, 1, 0);
    assert ProbeIndex(1, 0, 4) == 1 && !Stops(Finding, s3[1], 3);
    ProbeStep(s3, Finding, 3, 1, 1);
    assert ProbeIndex(1, 1, 4) == 2 && !Stops(Finding, s3[2], 3);
    ProbeStep(s3, Finding, 3, 1, 2);
    assert ProbeIndex(1, 2, 4) == 1 && !Stops(Finding, s3[1], 3);
    ProbeStep(s3, Finding, 3, 1, 3);
    assert ProbeIndex(1, 3, 4) == 2 && !Stops(Finding, s3[2], 3);
    assert FirstStop(s3, Finding, 3, 1, 0) == None;
    assert OneHash(3) % |s3| == 1;
    assert Locate(s3, OneHash, Finding, 3) == None;
    var s4: seq<Slot<int, int>> := [Empty, Live(1, 10), Live(2, 20), Empty];
    ProbeStep(s4, Testing, 3, 1, 0);
    assert ProbeIndex(1, 0, 4) == 1 && !Stops(Testing, s4[1], 3);
    ProbeStep(s4, Testing, 3, 1, 1);
    assert ProbeIndex(1, 1, 4) == 2 && !Stops(Testing, s4[2], 3);
    ProbeStep(s4, Testing, 3, 1, 2);
    assert ProbeIndex(1, 2, 4) == 1 && !Stops(Testing, s4[1], 3);
    ProbeStep(s4, Testing, 3, 1, 3);
    assert ProbeIndex(1, 3, 4) == 2 && !Stops(Testing, s4[2], 3);
    assert FirstStop(s4, Testing, 3, 1, 0) == None;
    assert OneHash(3) % |s4| == 1;
    assert Locate(s4, OneHash, Testing, 3) == None;
  }

  /**
   * With capacity 8 the probe from slot 1 visits only slots 1, 2 and 5,
   * and three `put`s of keys hashed to 1 fill exactly those slots.
   */
  lemma PutFillsProbePath()
    ensures Placed([Empty, Empty, Empty, Empty, Empty, Empty, Empty, Empty], OneHash, 1, 10) == Some([Empty, Live(1, 10), Empty, Empty, Empty, Empty, Empty, Empty])
    ensures Placed([Empty, Live(1, 10), Empty, Empty, Empty, Empty, Empty, Empty], OneHash, 2, 20) == Some([Empty, Live(1, 10), Live(2, 20), Empty, Empty, Empty, Empty, Empty])
    ensures Placed([Empty, Live(1, 10), Live(2, 20), Empty, Empty, Empty, Empty, Empty], OneHash, 3, 30) == Some([Empty, Live(1, 10), Live(2, 20), Empty, Empty, Live(3, 30), Empty, Empty])
  {
    var s6: seq<Slot<int, int>> := [Empty, Empty, Empty, Empty, Empty, Empty, Empty, Empty];
    ProbeStep(s6, Placing, 1, 1, 0);
    assert ProbeIndex(1, 0, 8) == 1 && Stops(Placing, s6[1], 1);
    assert FirstStop(s6, Placing, 1, 1, 0) == Some(0);
    assert OneHash(1) % |s6| == 1;
    assert Locate(s6, OneHash, Placing, 1) == Some(1);
    assert s6[1 := Live(1, 10)] == [Empty, Live(1, 10), Empty, Empty, Empty, Empty, Empty, Empty];
    var s7: seq<Slot<int, int>> := [Empty, Live(1, 10), Empty, Empty, Empty, Empty, Empty, Empty];
    ProbeStep(s7, Placing, 2, 1, 0);
    assert ProbeIndex(1, 0, 8) == 1 && !Stops(Placing, s7[1], 2);
    ProbeStep(s7, Placing, 2, 1, 1);
    assert ProbeIndex(1, 1, 8) == 2 && Stops(Placing, s7[2], 2);
    assert FirstStop(s7, Placing, 2, 1, 0) == Some(1);
    assert OneHash(2) % |s7| == 1;
    assert Locate(s7, OneHash, Placing, 2) == Some(2);
    assert s7[2 := Live(2, 20)] == [Empty, Live(1, 10), Live(2, 20), Empty, Empty, Empty, Empty, Empty];
    var s8: seq<Slot<int, int>> := [Empty, Live(1, 10), Live(2, 20), Empty, Empty, Empty, Empty, Empty];
    ProbeStep(s8, Placing, 3, 1, 0);
    assert ProbeIndex(1, 0, 8) == 1 && !Stops(Placing, s8[1], 3);
    ProbeStep(s8, Placing, 3, 1, 1);
    assert ProbeIndex(1, 1, 8) == 2 && !Stops(Placing, s8[2], 3);
    ProbeStep(s8, Placing, 3, 1, 2);
    assert ProbeIndex(1, 2, 8) == 5 && Stops(Placing, s8[5], 3);
    assert FirstStop(s8, Placing, 3, 1, 0) == Some(2);
    assert OneHash(3) % |s8| == 1;
    assert Locate(s8, OneHash, Placing, 3) == Some(5);
    assert s8[5 := Live(3, 30)] == [Empty, Live(1, 10), Live(2, 20), Empty, Empty, Live(3, 30), Empty, Empty];
  }

  /** Steps 4 to 7 of that probe revisit slots 1, 2, 5 and 2. */
  lemma LateStepsPass(s: seq<Slot<int, int>>)
    requires s == [Empty, Live(1, 10), Live(2, 20), Empty, Empty, Live(3, 30), Empty, Empty]
    ensures FirstStop(s, Placing, 4, 1, 4) == None
  {
    ProbeStep(s, Placing, 4, 1, 4);
    assert ProbeIndex(1, 4, 8) == 1 && !Stops(Placing, s[1], 4);
    ProbeStep(s, Placing, 4, 1, 5);
    assert ProbeIndex(1, 5, 8) == 2 && !Stops(Placing, s[2], 4);
    ProbeStep(s, Placing, 4, 1, 6);
    assert ProbeIndex(1, 6, 8) == 5 && !Stops(Placing, s[5], 4);
    ProbeStep(s, Placing, 4, 1, 7);
    assert ProbeIndex(1, 7, 8) == 2 && !Stops(Placing, s[2], 4);
  }

  /**
   * After those three `put`s the fourth (at load 3/8, so no resize)
   * never places its key.
   */
  lemma PutSpinsBelowHalfLoad()
    ensures Placed([Empty, Live(1, 10), Live(2, 20), Empty, Empty, Live(3, 30), Empty, Empty], OneHash, 4, 40) == None
  {
    var s: seq<Slot<int, int>> := [Empty, Live(1, 10), Live(2, 20), Empty, Empty, Live(3, 30), Empty, Empty];
    LateStepsPass(s);
    ProbeStep(s, Placing, 4, 1, 0);
    assert ProbeIndex(1, 0, 8) == 1 && !Stops(Placing, s[1], 4);
    ProbeStep(s, Placing, 4, 1, 1);
    assert ProbeIndex(1, 1, 8) == 2 && !Stops(Placing, s[2], 4);
    ProbeStep(s, Placing, 4, 1, 2);
    assert ProbeIndex(1, 2, 8) == 5 && !Stops(Placing, s[5], 4);
    ProbeStep(s, Placing, 4, 1, 3);
    assert ProbeIndex(1, 3, 8) == 2 && !Stops(Placing, s[2], 4);
    assert FirstStop(s, Placing, 4, 1, 0) == None;
    assert OneHash(4) % |s| == 1;
    assert Locate(s, OneHash, Placing, 4) == None;
  }

  /**
   * Starting from the table of PutsFillSlotsOneAndTwo, `put` reuses a
   * tombstone that lies on the probe path before the live entry of the same
   * key, so the key ends up live twice; `remove` then
   * hides only the first of them, and `get` returns the older value again.
   */
  lemma ReusedTombstoneDuplicatesKey()
    ensures Tombstoned([Empty, Live(1, 10), Live(2, 20), Empty], OneHash, 1) == Returns([Empty, Tomb(1, 10), Live(2, 20), Empty])
    ensures Placed([Empty, Tomb(1, 10), Live(2, 20), Empty], OneHash, 2, 30) == Some([Empty, Live(2, 30), Live(2, 20), Empty])
    ensures Lookup([Empty, Live(2, 30), Live(2, 20), Empty], OneHash, 2) == Returns(Some(30))
    ensures Tombstoned([Empty, Live(2, 30), Live(2, 20), Empty], OneHash, 2) == Returns([Empty, Tomb(2, 30), Live(2, 20), Empty])
    ensures Lookup([Empty, Tomb(2, 30), Live(2, 20), Empty], OneHash, 2) == Returns(Some(20))
  {
    var s12: seq<Slot<int, int>> := [Empty, Live(1, 10), Live(2, 20), Empty];
    ProbeStep(s12, Finding, 1, 1, 0);
    assert ProbeIndex(1, 0, 4) == 1 && Stops(Finding, s12[1], 1);
    assert FirstStop(s12, Finding, 1, 1, 0) == Some(0);
    assert OneHash(1) % |s12| == 1;
    assert Locate(s12, OneHash, Finding, 1) == Some(1);
    assert s12[1 := Tomb(1, 10)] == [Empty, Tomb(1, 10), Live(2, 20), Empty];
    var s13: seq<Slot<int, int>> := [Empty, Tomb(1, 10), Live(2, 20), Empty];
    ProbeStep(s13, Placing, 2, 1, 0);
    assert ProbeIndex(1, 0, 4) == 1 && Stops(Placing, s13[1], 2);
    assert FirstStop(s13, Placing, 2, 1, 0) == Some(0);
    assert OneHash(2) % |s13| == 1;
    assert Locate(s13, OneHash, Placing, 2) == Some(1);
    assert s13[1 := Live(2, 30)] == [Empty, Live(2, 30), Live(2, 20), Empty];
    var s14: seq<Slot<int, int>> := [Empty, Live(2, 30), Live(2, 20), Empty];
    ProbeStep(s14, Finding, 2, 1, 0);
    assert ProbeIndex(1, 0, 4) == 1 && Stops(Finding, s14[1], 2);
    assert FirstStop(s14, Finding, 2, 1, 0) == Some(0);
    assert OneHash(2) % |s14| == 1;
    assert Locate(s14, OneHash, Finding, 2) == Some(1);
    assert s14[1 := Tomb(2, 30)] == [Empty, Tomb(2, 30), Live(2, 20), Empty];
    var s16: seq<Slot<int, int>> := [Empty, Tomb(2, 30), Live(2, 20), Empty];
    ProbeStep(s16, Finding, 2, 1, 0);
    assert ProbeIndex(1, 0, 4) == 1 && !Stops(Finding, s16[1], 2);
    ProbeStep(s16, Finding, 2, 1, 1);
    assert ProbeIndex(1, 1, 4) == 2 && Stops(Finding, s16[2], 2);
    assert FirstStop(s16, Finding, 2, 1, 0) == Some(1);
    assert OneHash(2) % |s16| == 1;
    assert Locate(s16, OneHash, Finding, 2) == Some(2);
  }

  /**
   * The table with the key live twice is not coherent: `get` finds the
   * first of the two entries, never the second.
   */
  lemma DuplicateIsIncoherent()
    ensures !Coherent([Empty, Live(2, 30), Live(2, 20), Empty], OneHash)
  {
    var d: seq<Slot<int, int>> := [Empty, Live(2, 30), Live(2, 20), Empty];
    ProbeStep(d, Finding, 2, 1, 0);
    assert ProbeIndex(1, 0, 4) == 1 && Stops(Finding, d[1], 2);
    assert FirstStop(d, Finding, 2, 1, 0) == Some(0);
    assert OneHash(2) % |d| == 1;
    assert Locate(d, OneHash, Finding, 2) == Some(1);
    assert d[2].Live? && Locate(d, OneHash, Finding, d[2].key) != Some(2);
  }

  /**
   * `contains_key` stops at a tombstone with the key and answers true,
   * while `get` walks past it to the empty slot and answers None.
   */
  lemma ContainsSeesTombstone()
    ensures Placed([Empty, Empty, Empty, Empty], OneHash, 1, 10) == Some([Empty, Live(1, 10), Empty, Empty])
    ensures Tombstoned([Empty, Live(1, 10), Empty, Empty], OneHash, 1) == Returns([Empty, Tomb(1, 10), Empty, Empty])
    ensures Member([Empty, Tomb(1, 10), Empty, Empty], OneHash, 1) == Returns(true)
    ensures Lookup([Empty, Tomb(1, 10), Empty, Empty], OneHash, 1) == Returns(None)
  {
    var s17: seq<Slot<int, int>> := [Empty, Empty, Empty, Empty];
    ProbeStep(s17, Placing, 1, 1, 0);
    assert ProbeIndex(1, 0, 4) == 1 && Stops(Placing, s17[1], 1);
    assert FirstStop(s17, Placing, 1, 1, 0) == Some(0);
    assert OneHash(1) % |s17| == 1;
    assert Locate(s17, OneHash, Placing, 1) == Some(1);
    assert s17[1 := Live(1, 10)] == [Empty, Live(1, 10), Empty, Empty];
    var s18: seq<Slot<int, int>> := [Empty, Live(1, 10), Empty, Empty];
    ProbeStep(s18, Finding, 1, 1, 0);
    assert ProbeIndex(1, 0, 4) == 1 && Stops(Finding, s18[1], 1);
    assert FirstStop(s18, Finding, 1, 1, 0) == Some(0);
    assert OneHash(1) % |s18| == 1;
    assert Locate(s18, OneHash, Finding, 1) == Some(1);
    assert s18[1 := Tomb(1, 10)] == [Empty, Tomb(1, 10), Empty, Empty];
    var s19: seq<Slot<int, int>> := [Empty, Tomb(1, 10), Empty, Empty];
    ProbeStep(s19, Testing, 1, 1, 0);
    assert ProbeIndex(1, 0, 4) == 1 && Stops(Testing, s19[1], 1);
    assert FirstStop(s19, Testing, 1, 1, 0) == Some(0);
    assert OneHash(1) % |s19| == 1;
    assert Locate(s19, OneHash, Testing, 1) == Some(1);
    var s20: seq<Slot<int, int>> := [Empty, Tomb(1, 10), Empty, Empty];
    ProbeStep(s20, Finding, 1, 1, 0);
    assert ProbeIndex(1, 0, 4) == 1 && !Stops(Finding, s20[1], 1);
    ProbeStep(s20, Finding, 1, 1, 1);
    assert ProbeIndex(1, 1, 4) == 2 && Stops(Finding, s20[2], 1);
    assert FirstStop(s20, Finding, 1, 1, 0) == Some(1);
    assert OneHash(1) % |s20| == 1;
    assert Locate(s20, OneHash, Finding, 1) == Some(2);
  }
}
