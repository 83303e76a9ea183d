/**
 * lab05 `OpenAddressingHashTable`: string keys and arbitrary values stored
 * directly in an array of slots, collisions resolved by linear probing or
 * double hashing, deletions leaving tombstones, and a rebuild into
 * `2 * capacity + 1` slots whenever `size / capacity > 0.6` on entry to
 * `insert`.
 *
 * The two parallel Python lists `_keys` and `_values` are one array of
 * `Slot`s: `Empty` is a `None` key, `Deleted` is the `_deleted` sentinel
 * (its value cleared to `None`), and `Live(key, value)` is a stored pair.
 * The pure functions below (`Probe`, `FirstUsable`, `MatchStep`, `Place`,
 * `Rebuild`, ...) specify each walk over the slots; the class's loop
 * methods are proved to compute exactly them.
 */
module OpenAddressing {
  import opened Wrappers
  import opened HashFunctions

  datatype Slot<V> = Empty | Deleted | Live(key: string, value: V)

  function LiveBit<V>(s: Slot<V>): nat { if s.Live? then 1 else 0 }

  /** Number of live slots: what `_size` must equal. */
  function LiveCount<V>(s: seq<Slot<V>>): nat
  {
    if s == [] then 0 else LiveBit(s[0]) + LiveCount(s[1..])
  }

  /** A freshly allocated slot list `[None] * capacity`. */
  function EmptySlots<V>(n: nat): (s: seq<Slot<V>>)
    ensures |s| == n && forall i :: 0 <= i < n ==> s[i] == Empty
  {
    seq(n, _ => Empty)
  }

  ghost predicate NoTombstones<V>(s: seq<Slot<V>>)
  {
    forall i :: 0 <= i < |s| ==> !s[i].Deleted?
  }

  // -----------------------------------------------------------------------
  // Probe sequences (`_probe`)

  /** The double-hashing step `h2 = 1 + hash % (capacity - 1)`. */
  function DoubleStep(h: nat, capacity: nat): (step: nat)
    requires capacity >= 2
    ensures 1 <= step <= capacity - 1
  {
    1 + h % (capacity - 1)
  }

  /**
   * `_probe`: the slot examined at attempt `i` for a key whose hash is `h`.
   * `"double"` selects double hashing; every other name, `"linear"` included,
   * probes linearly.
   */
  function Probe(h: nat, capacity: nat, probing: string, i: nat): (idx: nat)
    requires capacity >= 2
    ensures idx < capacity
  {
    var h1 := h % capacity;
    if probing == "linear" then (h1 + i) % capacity
    else if probing == "double" then (h1 + i * DoubleStep(h, capacity)) % capacity
    else (h1 + i) % capacity
  }

  /** A probing name other than `"linear"` and `"double"` behaves as `"linear"`. */
  lemma UnknownProbingIsLinear(h: nat, capacity: nat, probing: string, i: nat)
    requires capacity >= 2 && probing != "linear" && probing != "double"
    ensures Probe(h, capacity, probing, i) == Probe(h, capacity, "linear", i)
  {
  }

  /** Reduction modulo `c` of a value below `2c` subtracts `c` at most once. */
  lemma ModBelowTwice(a: nat, c: nat)
    requires 0 < c && a < 2 * c
    ensures a % c == (if a < c then a else a - c)
  {
    if a < c {
      assert a == c * 0 + a;
    } else {
      assert a == c * 1 + (a - c);
    }
  }

  /** Linear probing: attempt `i` looks at `(h1 + i) % capacity`. */
  lemma LinearProbeAt(h: nat, capacity: nat, probing: string, i: nat)
    requires capacity >= 2 && probing != "double" && i < capacity
    ensures Probe(h, capacity, probing, i) == (if h % capacity + i < capacity then h % capacity + i
                                                 else h % capacity + i - capacity)
  {
    ModBelowTwice(h % capacity + i, capacity);
  }

  /** Linear probing reaches every slot within `capacity` attempts. */
  lemma LinearProbeReaches(h: nat, capacity: nat, probing: string, j: nat)
    requires capacity >= 2 && probing != "double" && j < capacity
    ensures exists i :: 0 <= i < capacity && Probe(h, capacity, probing, i) == j
  {
    var h1 := h % capacity;
    var i := if h1 <= j then j - h1 else j + capacity - h1;
    LinearProbeAt(h, capacity, probing, i);
  }

  /** Linear probing visits no slot twice within `capacity` attempts. */
  lemma LinearProbeInjective(h: nat, capacity: nat, probing: string, i1: nat, i2: nat)
    requires capacity >= 2 && probing != "double"
    requires i1 < i2 < capacity
    ensures Probe(h, capacity, probing, i1) != Probe(h, capacity, probing, i2)
  {
    LinearProbeAt(h, capacity, probing, i1);
    LinearProbeAt(h, capacity, probing, i2);
  }

  // -----------------------------------------------------------------------
  // Slot search for insertion (`_find_slot`)

  /** A slot `_find_slot` accepts for `key`: empty, a tombstone, or `key` itself. */
  predicate Usable<V>(s: Slot<V>, key: string)
  {
    s.Empty? || s.Deleted? || s.key == key
  }

  /**
   * The first attempt at or after `i` whose slot is usable for `key`, or -1
   * when none of the attempts `i .. capacity-1` is.
   */
  function FirstUsable<V>(slots: seq<Slot<V>>, h: nat, probing: string, key: string, i: nat): (r: int)
    requires |slots| >= 2 && i <= |slots|
    ensures r == -1 || i <= r < |slots|
    ensures r != -1 ==> Usable(slots[Probe(h, |slots|, probing, r)], key)
    ensures forall j :: i <= j < |slots| && (r == -1 || j < r) ==>
              slots[Probe(h, |slots|, probing, j)].Live? && slots[Probe(h, |slots|, probing, j)].key != key
    decreases |slots| - i
  {
    if i == |slots| then -1
    else if Usable(slots[Probe(h, |slots|, probing, i)], key) then i
    else FirstUsable(slots, h, probing, key, i + 1)
  }

  /** `_find_slot`: the slot index chosen for `key`, or -1. */
  function FindSlot<V>(slots: seq<Slot<V>>, h: nat, probing: string, key: string): (idx: int)
    requires |slots| >= 2
    ensures idx == -1 || (0 <= idx < |slots| && Usable(slots[idx], key))
  {
    var r := FirstUsable(slots, h, probing, key, 0);
    if r == -1 then -1 else Probe(h, |slots|, probing, r)
  }

  /** The slots after `insert` stores `(key, value)` (past the load-factor guard). */
  function Place<V>(slots: seq<Slot<V>>, h: nat, probing: string, key: string, value: V): seq<Slot<V>>
    requires |slots| >= 2
  {
    var idx := FindSlot(slots, h, probing, key);
    if idx == -1 then slots else slots[idx := Live(key, value)]
  }

  // -----------------------------------------------------------------------
  // Lookup walk shared by `get` and `delete`

  /**
   * The attempt at or after `i` at which the walk of `get`/`delete` finds
   * `key`, or -1: an empty slot ends the walk, tombstones and other keys are
   * skipped, and the walk gives up after `capacity` attempts.
   */
  function MatchStep<V>(slots: seq<Slot<V>>, h: nat, probing: string, key: string, i: nat): (r: int)
    requires |slots| >= 2 && i <= |slots|
    ensures r != -1 ==> (i <= r < |slots| && slots[Probe(h, |slots|, probing, r)].Live? &&
                         slots[Probe(h, |slots|, probing, r)].key == key)
    ensures r != -1 ==> forall j :: i <= j < r ==>
              !slots[Probe(h, |slots|, probing, j)].Empty? &&
              !(slots[Probe(h, |slots|, probing, j)].Live? && slots[Probe(h, |slots|, probing, j)].key == key)
    ensures r == -1 ==> forall j ::
              (i <= j < |slots| && slots[Probe(h, |slots|, probing, j)].Live? &&
               slots[Probe(h, |slots|, probing, j)].key == key) ==>
              exists e :: i <= e < j && slots[Probe(h, |slots|, probing, e)].Empty?
    decreases |slots| - i
  {
    if i == |slots| then -1
    else
      var s := slots[Probe(h, |slots|, probing, i)];
      if s.Empty? then -1
      else if s.Live? && s.key == key then i
      else MatchStep(slots, h, probing, key, i + 1)
  }

  /** `get`: the value found by the lookup walk, or `None`. */
  function Lookup<V>(slots: seq<Slot<V>>, h: nat, probing: string, key: string): Option<V>
    requires |slots| >= 2
  {
    var m := MatchStep(slots, h, probing, key, 0);
    if m == -1 then None else Some(slots[Probe(h, |slots|, probing, m)].value)
  }

  /** `delete`: the slot index the lookup walk finds `key` in, or -1. */
  function MatchIndex<V>(slots: seq<Slot<V>>, h: nat, probing: string, key: string): (idx: int)
    requires |slots| >= 2
    ensures idx == -1 || (0 <= idx < |slots| && slots[idx].Live? && slots[idx].key == key)
  {
    var m := MatchStep(slots, h, probing, key, 0);
    if m == -1 then -1 else Probe(h, |slots|, probing, m)
  }

  // -----------------------------------------------------------------------
  // Rebuild (`_resize`)

  /**
   * A fresh table of `capacity` slots after re-inserting, in array order,
   * the live entries among the first `n` old slots.
   */
  function Reinsert<V>(prev: seq<Slot<V>>, n: nat, capacity: nat, probing: string, hf: HashFunction): (s: seq<Slot<V>>)
    requires n <= |prev| && capacity >= 2
    ensures |s| == capacity
  {
    if n == 0 then EmptySlots(capacity)
    else
      var t := Reinsert(prev, n - 1, capacity, probing, hf);
      match prev[n - 1]
      case Live(k, v) => Place(t, Call(hf, k), probing, k, v)
      case _ => t
  }

  /** `_resize(capacity)`: every live entry of `old` re-inserted into empty slots. */
  function Rebuild<V>(prev: seq<Slot<V>>, capacity: nat, probing: string, hf: HashFunction): seq<Slot<V>>
    requires capacity >= 2
  {
    Reinsert(prev, |prev|, capacity, probing, hf)
  }

  // -----------------------------------------------------------------------
  // Counting lemmas

  lemma {:induction false} LiveCountBound<V>(s: seq<Slot<V>>)
    ensures LiveCount(s) <= |s|
  {
    if s != [] { LiveCountBound(s[1..]); }
  }

  /** Overwriting one slot changes the live count by the change of that slot alone. */
  lemma {:induction false} LiveCountUpdate<V>(s: seq<Slot<V>>, i: nat, x: Slot<V>)
    requires i < |s|
    ensures LiveCount(s[i := x]) == LiveCount(s) - LiveBit(s[i]) + LiveBit(x)
  {
    if i == 0 {
      assert s[i := x][1..] == s[1..];
    } else {
      assert s[i := x][1..] == s[1..][i - 1 := x];
      LiveCountUpdate(s[1..], i - 1, x);
    }
  }

  /** Fewer live slots than slots means some slot is empty or a tombstone. */
  lemma {:induction false} NotFullHasFreeSlot<V>(s: seq<Slot<V>>) returns (j: nat)
    requires LiveCount(s) < |s|
    ensures j < |s| && !s[j].Live?
  {
    if s[0].Live? {
      var j' := NotFullHasFreeSlot(s[1..]);
      j := j' + 1;
    } else {
      j := 0;
    }
  }

  lemma {:induction false} EmptySlotsCount<V>(n: nat)
    ensures LiveCount(EmptySlots<V>(n)) == 0
  {
    if n > 0 {
      assert EmptySlots<V>(n)[1..] == EmptySlots<V>(n - 1);
      EmptySlotsCount<V>(n - 1);
    }
  }

  // -----------------------------------------------------------------------
  // Properties of insertion

  /**
   * The three outcomes of `insert` after the guard: nothing happens when no
   * slot is found; a free slot (empty or tombstone) takes the pair and the
   * live count grows by one; a slot already holding `key` only has its value
   * replaced.  Every other slot is left as it was.
   */
  lemma PlaceOutcomes<V>(slots: seq<Slot<V>>, h: nat, probing: string, key: string, value: V)
    requires |slots| >= 2
    ensures var idx := FindSlot(slots, h, probing, key);
            var s' := Place(slots, h, probing, key, value);
            |s'| == |slots| &&
            (idx == -1 ==> s' == slots) &&
            (idx != -1 ==> s'[idx] == Live(key, value) &&
                           (forall j :: 0 <= j < |slots| && j != idx ==> s'[j] == slots[j]) &&
                           (slots[idx].Live? ==> slots[idx].key == key && LiveCount(s') == LiveCount(slots)) &&
                           (!slots[idx].Live? ==> LiveCount(s') == LiveCount(slots) + 1))
  {
    var idx := FindSlot(slots, h, probing, key);
    if idx != -1 {
      LiveCountUpdate(slots, idx, Live(key, value));
    }
  }

  /**
   * With linear probing, a table that is not full always yields a slot:
   * the attempts `0 .. capacity-1` cover every index.
   */
  lemma LinearFindsFreeSlot<V>(slots: seq<Slot<V>>, h: nat, probing: string, key: string)
    requires |slots| >= 2 && probing != "double"
    requires LiveCount(slots) < |slots|
    ensures FindSlot(slots, h, probing, key) != -1
  {
    var j := NotFullHasFreeSlot(slots);
    LinearProbeReaches(h, |slots|, probing, j);
    var i :| 0 <= i < |slots| && Probe(h, |slots|, probing, i) == j;
  }

  /**
   * Past the load-factor guard (`size <= 0.6 * capacity`) a linear-probing
   * insert always stores its pair.
   */
  lemma LinearInsertStores<V>(slots: seq<Slot<V>>, h: nat, probing: string, key: string, value: V)
    requires |slots| >= 2 && probing != "double"
    requires 5 * LiveCount(slots) <= 3 * |slots|
    ensures FindSlot(slots, h, probing, key) != -1
    ensures Lookup(Place(slots, h, probing, key, value), h, probing, key) == Some(value)
  {
    LinearFindsFreeSlot(slots, h, probing, key);
    GetAfterPlace(slots, h, probing, key, value);
  }

  /**
   * Writing the found slot leaves the walk of `get` finding it at the same
   * attempt `r`: every earlier attempt saw a different live key.
   */
  lemma {:induction false} MatchAfterPlaceFrom<V>(slots: seq<Slot<V>>, h: nat, probing: string, key: string, value: V, i: nat)
    requires |slots| >= 2
    requires FirstUsable(slots, h, probing, key, 0) != -1
    requires i <= FirstUsable(slots, h, probing, key, 0)
    ensures MatchStep(Place(slots, h, probing, key, value), h, probing, key, i) == FirstUsable(slots, h, probing, key, 0)
    decreases FirstUsable(slots, h, probing, key, 0) - i
  {
    var n := |slots|;
    var r := FirstUsable(slots, h, probing, key, 0);
    var idx := Probe(h, n, probing, r);
    var s' := Place(slots, h, probing, key, value);
    assert s' == slots[idx := Live(key, value)];
    if i < r {
      var p := Probe(h, n, probing, i);
      assert slots[p].Live? && slots[p].key != key;
      assert p != idx;
      MatchAfterPlaceFrom(slots, h, probing, key, value, i + 1);
    }
  }

  /** `get` finds what `insert` just placed, whenever a slot was found. */
  lemma GetAfterPlace<V>(slots: seq<Slot<V>>, h: nat, probing: string, key: string, value: V)
    requires |slots| >= 2
    requires FindSlot(slots, h, probing, key) != -1
    ensures Lookup(Place(slots, h, probing, key, value), h, probing, key) == Some(value)
  {
    MatchAfterPlaceFrom(slots, h, probing, key, value, 0);
  }

  // -----------------------------------------------------------------------
  // Properties of the rebuild

  /** A rebuild contains no tombstones and no more live slots than the old table. */
  lemma {:induction false} ReinsertShape<V>(prev: seq<Slot<V>>, n: nat, capacity: nat, probing: string, hf: HashFunction)
    requires n <= |prev| && capacity >= 2
    ensures NoTombstones(Reinsert(prev, n, capacity, probing, hf))
    ensures LiveCount(Reinsert(prev, n, capacity, probing, hf)) <= LiveCount(prev[..n])
  {
    if n == 0 {
      EmptySlotsCount<V>(capacity);
    } else {
      ReinsertShape(prev, n - 1, capacity, probing, hf);
      var t := Reinsert(prev, n - 1, capacity, probing, hf);
      LiveCountAppend(prev[..n - 1], prev[n - 1]);
      assert prev[..n] == prev[..n - 1] + [prev[n - 1]];
      if prev[n - 1].Live? {
        var k, v := prev[n - 1].key, prev[n - 1].value;
        PlaceOutcomes(t, Call(hf, k), probing, k, v);
      }
    }
  }

  lemma {:induction false} LiveCountAppend<V>(s: seq<Slot<V>>, x: Slot<V>)
    ensures LiveCount(s + [x]) == LiveCount(s) + LiveBit(x)
  {
    if s == [] {
      assert [x][1..] == [];
    } else {
      assert (s + [x])[1..] == s[1..] + [x];
      LiveCountAppend(s[1..], x);
    }
  }

  /**
   * `_resize` drops tombstones, and the inserts it performs never trigger a
   * second resize: live entries are at most the old capacity `c`, and
   * `c <= 0.6 * (2c + 1)`.
   */
  lemma RebuildShape<V>(prev: seq<Slot<V>>, probing: string, hf: HashFunction)
    requires |prev| >= 2
    ensures var s := Rebuild(prev, 2 * |prev| + 1, probing, hf);
            |s| == 2 * |prev| + 1 && NoTombstones(s) && LiveCount(s) <= LiveCount(prev) &&
            !(5 * LiveCount(s) > 3 * |s|)
  {
    ReinsertShape(prev, |prev|, 2 * |prev| + 1, probing, hf);
    assert prev[..|prev|] == prev;
    LiveCountBound(prev);
  }

  /**
   * Storing a pair for another key into a slot that does not hold `key`
   * leaves the walk of `get` for `key` where it was.
   */
  lemma {:induction false} MatchSurvivesWrite<V>(t: seq<Slot<V>>, h: nat, probing: string, key: string,
                                                 idx: nat, x: Slot<V>, i: nat)
    requires |t| >= 2 && idx < |t| && i <= |t|
    requires !(t[idx].Live? && t[idx].key == key)
    requires x.Live? && x.key != key
    requires MatchStep(t, h, probing, key, i) != -1
    ensures MatchStep(t[idx := x], h, probing, key, i) == MatchStep(t, h, probing, key, i)
    decreases |t| - i
  {
    var m := MatchStep(t, h, probing, key, i);
    if i < m {
      MatchSurvivesWrite(t, h, probing, key, idx, x, i + 1);
    }
  }

  /**
   * One re-insertion into a table without tombstones keeps every key that
   * was already findable findable.
   */
  lemma PlaceKeepsMatch<V>(t: seq<Slot<V>>, h2: nat, probing: string, k2: string, v2: V, h: nat, k: string)
    requires |t| >= 2 && NoTombstones(t)
    requires FindSlot(t, h2, probing, k2) != -1
    requires MatchStep(t, h, probing, k, 0) != -1
    ensures MatchStep(Place(t, h2, probing, k2, v2), h, probing, k, 0) != -1
  {
    if k != k2 {
      var idx := FindSlot(t, h2, probing, k2);
      MatchSurvivesWrite(t, h, probing, k, idx, Live(k2, v2), 0);
    }
  }

  /**
   * With linear probing every key live among the first `n` old slots can be
   * found after re-inserting them into more slots than the old table had.
   */
  lemma {:induction false} ReinsertKeepsKeys<V>(prev: seq<Slot<V>>, n: nat, capacity: nat, probing: string, hf: HashFunction)
    requires n <= |prev| && |prev| < capacity && probing != "double"
    ensures forall j :: 0 <= j < n && prev[j].Live? ==>
              MatchStep(Reinsert(prev, n, capacity, probing, hf), Call(hf, prev[j].key), probing, prev[j].key, 0) != -1
  {
    if n > 0 {
      ReinsertKeepsKeys(prev, n - 1, capacity, probing, hf);
      ReinsertShape(prev, n - 1, capacity, probing, hf);
      LiveCountBound(prev[..n - 1]);
      var t := Reinsert(prev, n - 1, capacity, probing, hf);
      if prev[n - 1].Live? {
        var k2, v2 := prev[n - 1].key, prev[n - 1].value;
        var h2 := Call(hf, k2);
        LinearFindsFreeSlot(t, h2, probing, k2);
        GetAfterPlace(t, h2, probing, k2, v2);
        assert Reinsert(prev, n, capacity, probing, hf) == Place(t, h2, probing, k2, v2);
        forall j | 0 <= j < n - 1 && prev[j].Live?
          ensures MatchStep(Place(t, h2, probing, k2, v2), Call(hf, prev[j].key), probing, prev[j].key, 0) != -1
        {
          PlaceKeepsMatch(t, h2, probing, k2, v2, Call(hf, prev[j].key), prev[j].key);
        }
      }
    }
  }

  /** Every key live before `_resize` is found afterwards (linear probing). */
  lemma RebuildKeepsKeys<V>(prev: seq<Slot<V>>, probing: string, hf: HashFunction, key: string)
    requires |prev| >= 2 && probing != "double"
    requires exists j :: 0 <= j < |prev| && prev[j].Live? && prev[j].key == key
    ensures Lookup(Rebuild(prev, 2 * |prev| + 1, probing, hf), Call(hf, key), probing, key).Some?
  {
    ReinsertKeepsKeys(prev, |prev|, 2 * |prev| + 1, probing, hf);
  }

  /**
   * Storing a pair for another key leaves what `get` returns for a findable
   * `key` unchanged: its walk stops at the same slot, and that slot is not
   * the one written.
   */
  lemma PlaceKeepsLookup<V>(t: seq<Slot<V>>, h2: nat, probing: string, k2: string, v2: V, h: nat, k: string)
    requires |t| >= 2 && k != k2
    requires MatchStep(t, h, probing, k, 0) != -1
    ensures Lookup(Place(t, h2, probing, k2, v2), h, probing, k) == Lookup(t, h, probing, k)
  {
    var idx := FindSlot(t, h2, probing, k2);
    if idx != -1 {
      MatchSurvivesWrite(t, h, probing, k, idx, Live(k2, v2), 0);
    }
  }

  /** `key` is live at index `j` of `prev` and at no other index below `n`. */
  ghost predicate OnlyCopy<V>(prev: seq<Slot<V>>, n: nat, j: nat)
    requires n <= |prev|
  {
    j < n && prev[j].Live? &&
    forall i :: 0 <= i < n && i != j && prev[i].Live? ==> prev[i].key != prev[j].key
  }

  /**
   * With linear probing, a key live exactly once among the first `n` old
   * slots is found, with its value, after re-inserting them into more slots
   * than the old table had.
   */
  lemma {:induction false} ReinsertKeepsValues<V>(prev: seq<Slot<V>>, n: nat, capacity: nat, probing: string,
                                                  hf: HashFunction, j: nat)
    requires n <= |prev| && |prev| < capacity && probing != "double"
    requires OnlyCopy(prev, n, j)
    ensures Lookup(Reinsert(prev, n, capacity, probing, hf), Call(hf, prev[j].key), probing, prev[j].key)
            == Some(prev[j].value)
  {
    var k, v := prev[j].key, prev[j].value;
    var t := Reinsert(prev, n - 1, capacity, probing, hf);
    if j == n - 1 {
      ReinsertShape(prev, n - 1, capacity, probing, hf);
      LiveCountBound(prev[..n - 1]);
      LinearFindsFreeSlot(t, Call(hf, k), probing, k);
      GetAfterPlace(t, Call(hf, k), probing, k, v);
    } else {
      assert OnlyCopy(prev, n - 1, j);
      ReinsertKeepsValues(prev, n - 1, capacity, probing, hf, j);
      if prev[n - 1].Live? {
        var k2, v2 := prev[n - 1].key, prev[n - 1].value;
        assert Reinsert(prev, n, capacity, probing, hf) == Place(t, Call(hf, k2), probing, k2, v2);
        PlaceKeepsLookup(t, Call(hf, k2), probing, k2, v2, Call(hf, k), k);
      }
    }
  }

  /** A key live exactly once before `_resize` keeps its value afterwards (linear probing). */
  lemma RebuildKeepsValues<V>(prev: seq<Slot<V>>, probing: string, hf: HashFunction, j: nat)
    requires |prev| >= 2 && probing != "double"
    requires OnlyCopy(prev, |prev|, j)
    ensures Lookup(Rebuild(prev, 2 * |prev| + 1, probing, hf), Call(hf, prev[j].key), probing, prev[j].key)
            == Some(prev[j].value)
  {
    ReinsertKeepsValues(prev, |prev|, 2 * |prev| + 1, probing, hf, j);
  }

  // -----------------------------------------------------------------------
  // Properties of lookup and deletion

  /** On a freshly allocated table `get` and `delete` find nothing. */
  lemma FreshTableFindsNothing<V>(n: nat, h: nat, probing: string, key: string)
    requires n >= 2
    ensures Lookup(EmptySlots<V>(n), h, probing, key) == None
    ensures MatchIndex(EmptySlots<V>(n), h, probing, key) == -1
  {
  }

  /** Deleting the matched slot leaves one live slot fewer. */
  lemma DeleteCount<V>(slots: seq<Slot<V>>, h: nat, probing: string, key: string)
    requires |slots| >= 2 && MatchIndex(slots, h, probing, key) != -1
    ensures LiveCount(slots[MatchIndex(slots, h, probing, key) := Deleted]) == LiveCount(slots) - 1
  {
    LiveCountUpdate(slots, MatchIndex(slots, h, probing, key), Deleted);
  }

  /** Nine slots of which 2, 5 and 8 are taken. */
  function CrowdedNine(): seq<Slot<int>>
  {
    [Empty, Empty, Live("a", 0), Empty, Empty, Live("b", 0), Empty, Empty, Live("c", 0)]
  }

  /** With step 3 in 9 slots the walk from slot 2 only sees slots 2, 5 and 8. */
  lemma CrowdedNineWalk()
    ensures FirstUsable(CrowdedNine(), 2, "double", "d", 0) == -1
  {
    var s := CrowdedNine();
    assert DoubleStep(2, 9) == 3;
    assert FirstUsable(s, 2, "double", "d", 9) == -1;
    assert Probe(2, 9, "double", 8) == 8;
    assert FirstUsable(s, 2, "double", "d", 8) == -1;
    assert Probe(2, 9, "double", 7) == 5;
    assert FirstUsable(s, 2, "double", "d", 7) == -1;
    assert Probe(2, 9, "double", 6) == 2;
    assert FirstUsable(s, 2, "double", "d", 6) == -1;
    assert Probe(2, 9, "double", 5) == 8;
    assert FirstUsable(s, 2, "double", "d", 5) == -1;
    assert Probe(2, 9, "double", 4) == 5;
    assert FirstUsable(s, 2, "double", "d", 4) == -1;
    assert Probe(2, 9, "double", 3) == 2;
    assert FirstUsable(s, 2, "double", "d", 3) == -1;
    assert Probe(2, 9, "double", 2) == 8;
    assert FirstUsable(s, 2, "double", "d", 2) == -1;
    assert Probe(2, 9, "double", 1) == 5;
    assert FirstUsable(s, 2, "double", "d", 1) == -1;
    assert Probe(2, 9, "double", 0) == 2;
    assert FirstUsable(s, 2, "double", "d", 0) == -1;
  }

  /**
   * Double hashing with a capacity that is not prime can walk a cycle
   * shorter than the table: in 9 slots (the rebuild of a 4-slot table) a
   * key hashing to 2 steps by 3 and only ever sees slots 2, 5 and 8, so
   * with those three taken `insert` silently stores nothing although six
   * slots are free and the load factor is 1/3.
   */
  lemma DoubleHashingCanMissFreeSlots()
    ensures LiveCount(CrowdedNine()) == 3 && !(5 * LiveCount(CrowdedNine()) > 3 * |CrowdedNine()|)
    ensures FindSlot(CrowdedNine(), 2, "double", "d") == -1
    ensures Place(CrowdedNine(), 2, "double", "d", 1) == CrowdedNine()
  {
    CrowdedNineWalk();
  }

  // -----------------------------------------------------------------------
  // The table

  class Table<V> {
    /** `_keys` and `_values`, one slot per index. */
    var slots: array<Slot<V>>
    /** `_size`: the number of live slots. */
    var size: nat
    /** `_capacity`. */
    var capacity: nat
    /** `_method`. */
    const probing: string
    /** `_hash_fn`. */
    const hashFn: HashFunction

    ghost predicate Valid()
      reads this, slots
    {
      capacity == slots.Length && capacity >= 2 && size == LiveCount(slots[..])
    }

    /**
     * `OpenAddressingHashTable(initial_capacity=17, method='linear', hash_fn=None)`;
     * without a hash function the table uses the sum of character codes.
     */
    constructor (initialCapacity: nat := 17, probing: string := "linear", hashFn: Option<HashFunction> := None)
      requires initialCapacity >= 2
      ensures Valid() && fresh(slots)
      ensures capacity == initialCapacity && size == 0 && slots[..] == EmptySlots(initialCapacity)
      ensures this.probing == probing
      ensures this.hashFn == (if hashFn.Some? then hashFn.value else DefaultHashFunction())
    {
      capacity := initialCapacity;
      slots := new Slot<V>[initialCapacity](_ => Empty);
      size := 0;
      this.probing := probing;
      this.hashFn := if hashFn.Some? then hashFn.value else DefaultHashFunction();
      new;
      assert slots[..] == EmptySlots(initialCapacity);
      EmptySlotsCount<V>(initialCapacity);
    }

    /** The `size` property: the number of live entries. */
    function Size(): (n: nat)
      reads this, slots
      requires Valid()
      ensures n == LiveCount(slots[..])
    {
      size
    }

    /** `capacity()`: the number of slots. */
    function Capacity(): (n: nat)
      reads this, slots
      requires Valid()
      ensures n == slots.Length && n >= 2
    {
      capacity
    }

    /** `_probe(key, i)` on the current capacity. */
    function ProbeKey(key: string, i: nat): (idx: nat)
      reads this
      requires capacity >= 2
      ensures idx < capacity
    {
      Probe(Call(hashFn, key), capacity, probing, i)
    }

    /** `_find_slot`. */
    method FindSlotOf(key: string) returns (idx: int)
      requires Valid()
      ensures idx == FindSlot(slots[..], Call(hashFn, key), probing, key)
    {
      var i := 0;
      while i < capacity
        invariant 0 <= i <= capacity
        invariant FirstUsable(slots[..], Call(hashFn, key), probing, key, i)
               == FirstUsable(slots[..], Call(hashFn, key), probing, key, 0)
      {
        var j := ProbeKey(key, i);
        var k := slots[j];
        if k.Empty? || k.Deleted? || k.key == key {
          return j;
        }
        i := i + 1;
      }
      return -1;
    }

    /**
     * Lines 70-79 of `insert`, past the load-factor guard: store the pair in
     * the slot `_find_slot` picks, or do nothing when it finds none.  The
     * re-insertions of `_resize` enter `insert` here, because its guard
     * cannot fire during a resize.
     */
    method Store(key: string, value: V)
      requires Valid()
      modifies slots, this`size
      ensures Valid() && slots == old(slots)
      ensures slots[..] == Place(old(slots[..]), Call(hashFn, key), probing, key, value)
      ensures var idx := FindSlot(old(slots[..]), Call(hashFn, key), probing, key);
              (idx == -1 ==> size == old(size)) &&
              (idx != -1 && old(slots[idx]).Live? ==> size == old(size)) &&
              (idx != -1 && !old(slots[idx]).Live? ==> size == old(size) + 1)
    {
      var slot := FindSlotOf(key);
      if slot == -1 {
        return;
      }
      LiveCountUpdate(slots[..], slot, Live(key, value));
      if slots[slot].Empty? || slots[slot].Deleted? {
        slots[slot] := Live(key, value);
        size := size + 1;
      } else {
        slots[slot] := Live(key, value);
      }
    }

    /**
     * `_resize(new_capacity)`: fresh empty slots, `_size` reset to 0, then
     * every live entry of the old slots re-inserted in array order.  The
     * precondition holds for the only caller (`2 * capacity + 1`) and is what
     * keeps the re-inserting `insert` from resizing again.
     */
    method Resize(newCapacity: nat)
      requires Valid()
      requires 5 * capacity <= 3 * newCapacity
      modifies this
      ensures Valid() && fresh(slots)
      ensures capacity == newCapacity
      ensures slots[..] == Rebuild(old(slots[..]), newCapacity, probing, hashFn)
    {
      var oldSlots := slots;
      capacity := newCapacity;
      slots := new Slot<V>[newCapacity](_ => Empty);
      size := 0;
      assert slots[..] == Reinsert(oldSlots[..], 0, newCapacity, probing, hashFn);
      EmptySlotsCount<V>(newCapacity);
      for j := 0 to oldSlots.Length
        invariant fresh(slots) && slots.Length == capacity == newCapacity
        invariant slots[..] == Reinsert(oldSlots[..], j, newCapacity, probing, hashFn)
        invariant Valid()
      {
        ReinsertShape(oldSlots[..], j, newCapacity, probing, hashFn);
        LiveCountBound(oldSlots[..][..j]);
        if oldSlots[j].Live? {
          // the guard of the re-entered `insert` is false: no nested resize
          assert !(5 * size > 3 * capacity);
          Store(oldSlots[j].key, oldSlots[j].value);
        }
      }
      assert oldSlots[..] == old(slots[..]);
    }

    /**
     * `insert(key, value)`: when `size / capacity > 0.6` on entry, first
     * rebuild into `2 * capacity + 1` slots; then store the pair, or do
     * nothing when no slot is found.
     */
    method Insert(key: string, value: V)
      requires Valid()
      modifies this, slots
      ensures Valid()
      ensures var grow := 5 * old(size) > 3 * old(capacity);
              var base := if grow then Rebuild(old(slots[..]), 2 * old(capacity) + 1, probing, hashFn)
                          else old(slots[..]);
              capacity == |base| &&
              slots[..] == Place(base, Call(hashFn, key), probing, key, value) &&
              (grow ==> fresh(slots)) && (!grow ==> slots == old(slots))
    {
      if 5 * size > 3 * capacity {
        Resize(capacity * 2 + 1);
      }
      Store(key, value);
    }

    /**
     * `get(key)`: walks the probe sequence, stopping with `None` at an empty
     * slot, skipping tombstones, and giving up after `capacity` attempts.
     */
    method Get(key: string) returns (r: Option<V>)
      requires Valid()
      ensures r == Lookup(slots[..], Call(hashFn, key), probing, key)
    {
      var i := 0;
      while i < capacity
        invariant 0 <= i <= capacity
        invariant MatchStep(slots[..], Call(hashFn, key), probing, key, i)
               == MatchStep(slots[..], Call(hashFn, key), probing, key, 0)
      {
        var j := ProbeKey(key, i);
        var k := slots[j];
        if k.Empty? {
          return None;
        }
        if k.Live? && k.key == key {
          return Some(k.value);
        }
        i := i + 1;
      }
      return None;
    }

    /**
     * `delete(key)`: the walk of `get`; the first slot holding `key` becomes a
     * tombstone (value cleared), `_size` drops by one and the result is
     * `True`; otherwise nothing changes and the result is `False`.
     */
    method Delete(key: string) returns (ok: bool)
      requires Valid()
      modifies slots, this`size
      ensures Valid() && slots == old(slots)
      ensures var idx := MatchIndex(old(slots[..]), Call(hashFn, key), probing, key);
              ok == (idx != -1) &&
              (ok ==> slots[..] == old(slots[..])[idx := Deleted] && size == old(size) - 1) &&
              (!ok ==> slots[..] == old(slots[..]) && size == old(size))
    {
      var i := 0;
      while i < capacity
        invariant 0 <= i <= capacity
        invariant MatchStep(slots[..], Call(hashFn, key), probing, key, i)
               == MatchStep(slots[..], Call(hashFn, key), probing, key, 0)
      {
        var j := ProbeKey(key, i);
        var k := slots[j];
        if k.Empty? {
          return false;
        }
        if k.Live? && k.key == key {
          LiveCountUpdate(slots[..], j, Deleted);
          slots[j] := Deleted;
          size := size - 1;
          return true;
        }
        i := i + 1;
      }
      return false;
    }
  }
}
