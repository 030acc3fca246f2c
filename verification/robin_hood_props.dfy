/** Properties of the Robin Hood map's table operations, as custom_map/custom_map.go has them.

    The central fact is that every `Distance` field stays 0: entries are created with 0, a swap
    moves whole entries, and Delete's shift decrements only entries whose field is non-zero.
    So Get and Delete stop one slot past the home slot, and find a key only in its home slot. */
module RobinHoodProps {
  import opened Wrappers
  import opened RobinHoodSpec
  import Bits

  /** No string occurs twice. */
  predicate NoDuplicates(s: seq<string>)
  {
    forall i, j :: 0 <= i < j < |s| ==> s[i] != s[j]
  }

  /** The probe's first slot is the home slot. */
  lemma SlotZero(home: nat, n: nat)
    requires home < n
    ensures Slot(home, 0, n) == home
  {
    Bits.ModUnique(home, n, 0, home);
  }

  /** An occupied slot's key is among the keys. */
  lemma {:induction false} KeyListed<V>(t: Table<V>, i: nat)
    requires i < |t| && !t[i].empty
    ensures t[i].key in KeysOf(t)
    decreases |t|
  {
    if i < |t| - 1 {
      assert t[..|t| - 1][i] == t[i];
      KeyListed(t[..|t| - 1], i);
    }
  }

  // ---------------------------------------------------------------------------------------
  // The enumerators (Keys, Values, Entries, lines 245-283)

  /** `Keys()`, `Values()` and `Entries()` have `count` items each, aligned index by index. */
  lemma {:induction false} EnumeratorsAligned<V>(t: Table<V>)
    ensures |KeysOf(t)| == |ValuesOf(t)| == |PairsOf(t)| == Occupied(t)
    ensures forall i :: 0 <= i < Occupied(t) ==> PairsOf(t)[i] == KeyValuePair(KeysOf(t)[i], ValuesOf(t)[i])
  {
    if |t| > 0 {
      EnumeratorsAligned(t[..|t| - 1]);
    }
  }

  /** Slot order: the occupied slot `i` contributes the item at position "number of occupied
      slots before `i`" of each enumerator. */
  lemma {:induction false} EnumeratorsInSlotOrder<V>(t: Table<V>, i: nat)
    requires i < |t| && !t[i].empty
    ensures Occupied(t[..i]) < Occupied(t)
    ensures KeysOf(t)[Occupied(t[..i])] == t[i].key
    ensures ValuesOf(t)[Occupied(t[..i])] == t[i].value
    ensures PairsOf(t)[Occupied(t[..i])] == KeyValuePair(t[i].key, t[i].value)
    decreases |t|
  {
    var last := |t| - 1;
    if i == last {
      assert t[..|t| - 1] == t[..i];
    } else {
      var p := t[..last];
      assert p[..i] == t[..i] && p[i] == t[i];
      EnumeratorsInSlotOrder(p, i);
    }
  }

  // ---------------------------------------------------------------------------------------
  // Consistency is kept by every operation

  /** Overwriting one slot with a consistent entry keeps the table consistent. */
  lemma ConsistentUpdate<V>(t: Table<V>, hash: string -> bv32, i: nat, e: Entry<V>)
    requires Consistent(t, hash) && i < |t| && e.distance == 0 && (!e.empty ==> e.hash == hash(e.key))
    ensures Consistent(t[i := e], hash)
  {
    var u := t[i := e];
    forall j: nat | j < |u|
      ensures ConsistentAt(u, hash, j)
    {
      assert ConsistentAt(t, hash, j);
    }
  }

  lemma {:induction false} InsertAtConsistent<V>(t: Table<V>, hash: string -> bv32, key: string, h: bv32,
                                                 value: Option<V>, home: nat, k: nat, carry: Entry<V>,
                                                 d: int8, stop: nat)
    requires home < |t| && k <= stop < |t| && t[Slot(home, stop, |t|)].empty && !carry.empty
    requires Consistent(t, hash) && carry.distance == 0 && carry.hash == hash(carry.key)
    ensures Consistent(InsertAt(t, key, h, value, home, k, carry, d, stop).0, hash)
    decreases stop - k
  {
    var pos := Slot(home, k, |t|);
    var existing := t[pos];
    assert ConsistentAt(t, hash, pos);
    if existing.empty {
      ConsistentUpdate(t, hash, pos, carry);
    } else if existing.hash == h && existing.key == key {
      ConsistentUpdate(t, hash, pos, existing.(value := value));
    } else {
      SlotsDistinct(home, k, stop, |t|);
      if d > existing.distance {
        ConsistentUpdate(t, hash, pos, carry);
        InsertAtConsistent(t[pos := carry], hash, key, h, value, home, k + 1, existing, Inc8(carry.distance), stop);
      } else {
        InsertAtConsistent(t, hash, key, h, value, home, k + 1, carry, Inc8(d), stop);
      }
    }
  }

  lemma InsertConsistent<V>(t: Table<V>, hash: string -> bv32, key: string, value: Option<V>)
    requires 0 < |t| && Occupied(t) < |t| && Consistent(t, hash)
    ensures Consistent(Insert(t, key, hash(key), value).0, hash)
  {
    var home := Home(hash(key), |t|);
    InsertAtConsistent(t, hash, key, hash(key), value, home, 0, Entry(key, value, hash(key), 0, false), 0, StopStep(t, home));
  }

  lemma {:induction false} RehashConsistent<V>(src: Table<V>, t: Table<V>, hash: string -> bv32)
    requires 0 < |t| && Occupied(t) + Occupied(src) < |t| && Consistent(t, hash)
    ensures Consistent(Rehash(src, t, hash), hash)
    decreases |src|
  {
    if |src| > 0 {
      var last := src[|src| - 1];
      RehashConsistent(src[..|src| - 1], t, hash);
      if !last.empty {
        InsertConsistent(Rehash(src[..|src| - 1], t, hash), hash, last.key, last.value);
      }
    }
  }

  /** `Put` keeps the table well formed: at least 16 slots, consistent, and never full, because
      the load check (line 57) runs before the insertion adds at most one entry. */
  lemma PutWellFormed<V>(t: Table<V>, hash: string -> bv32, key: string, value: Option<V>)
    requires WellFormed(t, hash)
    ensures WellFormed(Put(t, hash, key, value).0, hash)
    ensures |Put(t, hash, key, value).0| >= |t|
  {
    var t1 := if NeedsResize(t) then Resize(t, hash) else t;
    if NeedsResize(t) {
      EmptyOccupied<V>(2 * |t|);
      RehashConsistent(t, EmptyTable(2 * |t|), hash);
    }
    InsertConsistent(t1, hash, key, value);
  }

  /** `Delete` keeps the table well formed. */
  lemma DeleteWellFormed<V>(t: Table<V>, hash: string -> bv32, key: string)
    requires WellFormed(t, hash)
    ensures WellFormed(Delete(t, hash, key).0, hash)
  {
    DeleteAtHome(t, hash, key);
    var home := Home(hash(key), |t|);
    assert ConsistentAt(t, hash, home);
    ConsistentUpdate(t, hash, home, Cleared(t[home]));
  }

  // ---------------------------------------------------------------------------------------
  // Get and Delete inspect only the home slot

  /** `Get` finds a key exactly when it sits in its home slot: at the home slot the probe
      distance 0 is not above the stored 0, and one slot further the distance 1 is (line 117). */
  lemma GetAtHome<V>(t: Table<V>, hash: string -> bv32, key: string)
    requires 0 < |t| && Occupied(t) < |t| && Consistent(t, hash)
    ensures var home := Home(hash(key), |t|);
      Get(t, hash, key) == if !t[home].empty && t[home].key == key then (t[home].value, true) else (None, false)
  {
    var h := hash(key);
    var home := Home(h, |t|);
    var stop := StopStep(t, home);
    SlotZero(home, |t|);
    assert ConsistentAt(t, hash, home);
    if !t[home].empty && !(t[home].hash == h && t[home].key == key) {
      assert stop != 0;
      assert ConsistentAt(t, hash, Slot(home, 1, |t|));
      assert GetAt(t, key, h, home, 1, 1, stop) == (None, false);
    }
  }

  /** `Delete` removes a key exactly when it sits in its home slot; the backward shift then
      stops at once, because the next slot's `Distance` is 0, and only the home slot is cleared. */
  lemma DeleteAtHome<V>(t: Table<V>, hash: string -> bv32, key: string)
    requires 0 < |t| && Occupied(t) < |t| && Consistent(t, hash)
    ensures var home := Home(hash(key), |t|);
      Delete(t, hash, key)
        == if !t[home].empty && t[home].key == key then (t[home := Cleared(t[home])], true) else (t, false)
  {
    var home := Home(hash(key), |t|);
    if !t[home].empty && t[home].key == key {
      DeleteFoundAtHome(t, hash, key);
    } else {
      DeleteMissedAtHome(t, hash, key);
    }
  }

  /** `DeleteAtHome` when the home slot holds the key. */
  lemma DeleteFoundAtHome<V>(t: Table<V>, hash: string -> bv32, key: string)
    requires 0 < |t| && Occupied(t) < |t| && Consistent(t, hash)
    requires var home := Home(hash(key), |t|); !t[home].empty && t[home].key == key
    ensures var home := Home(hash(key), |t|); Delete(t, hash, key) == (t[home := Cleared(t[home])], true)
  {
    var h := hash(key);
    var home := Home(h, |t|);
    var stop := StopStep(t, home);
    SlotZero(home, |t|);
    assert ConsistentAt(t, hash, home);
    assert stop != 0;
    assert ConsistentAt(t, hash, Slot(home, 1, |t|));
    var next := Slot(home, 1, |t|);
    assert t[next].distance == 0;
    assert ShiftBack(t, home, 0, stop) == t[home := Cleared(t[home])];
    assert DeleteAt(t, key, h, home, 0, 0, stop) == (t[home := Cleared(t[home])], true);
  }

  /** `DeleteAtHome` when the home slot does not hold the key. */
  lemma DeleteMissedAtHome<V>(t: Table<V>, hash: string -> bv32, key: string)
    requires 0 < |t| && Occupied(t) < |t| && Consistent(t, hash)
    requires var home := Home(hash(key), |t|); t[home].empty || t[home].key != key
    ensures Delete(t, hash, key) == (t, false)
  {
    var h := hash(key);
    var home := Home(h, |t|);
    var stop := StopStep(t, home);
    SlotZero(home, |t|);
    assert ConsistentAt(t, hash, home);
    if !t[home].empty {
      assert stop != 0;
      assert ConsistentAt(t, hash, Slot(home, 1, |t|));
      assert DeleteAt(t, key, h, home, 1, 1, stop) == (t, false);
    }
    assert DeleteAt(t, key, h, home, 0, 0, stop) == (t, false);
  }

  // ---------------------------------------------------------------------------------------
  // Put

  /** The probe of Put leaves the slots of earlier steps as they were. */
  lemma {:induction false} InsertAtFrame<V>(t: Table<V>, key: string, h: bv32, value: Option<V>, home: nat,
                                            k: nat, carry: Entry<V>, d: int8, stop: nat, j: nat)
    requires home < |t| && k <= stop < |t| && t[Slot(home, stop, |t|)].empty && !carry.empty && j < k
    ensures InsertAt(t, key, h, value, home, k, carry, d, stop).0[Slot(home, j, |t|)] == t[Slot(home, j, |t|)]
    decreases stop - k
  {
    var pos := Slot(home, k, |t|);
    var existing := t[pos];
    SlotsDistinct(home, j, k, |t|);
    if !existing.empty && !(existing.hash == h && existing.key == key) {
      SlotsDistinct(home, k, stop, |t|);
      if d > existing.distance {
        InsertAtFrame(t[pos := carry], key, h, value, home, k + 1, existing, Inc8(carry.distance), stop, j);
      } else {
        InsertAtFrame(t, key, h, value, home, k + 1, carry, Inc8(d), stop, j);
      }
    }
  }

  /** When only slots the probe has passed (steps below `k`) can hold `key`, the probe ends in a vacant slot and the carried
      entry's key is added to the multiset of keys. */
  lemma {:induction false} InsertAtFresh<V>(t: Table<V>, key: string, h: bv32, value: Option<V>, home: nat,
                                            k: nat, carry: Entry<V>, d: int8, stop: nat)
    requires home < |t| && k <= stop < |t| && t[Slot(home, stop, |t|)].empty && !carry.empty
    requires forall i :: 0 <= i < |t| && !t[i].empty && t[i].key == key ==> StepTo(home, i, |t|) < k
    ensures InsertAt(t, key, h, value, home, k, carry, d, stop).1
    ensures multiset(KeysOf(InsertAt(t, key, h, value, home, k, carry, d, stop).0))
         == multiset(KeysOf(t)) + multiset{carry.key}
    decreases stop - k, 1
  {
    var pos := Slot(home, k, |t|);
    if t[pos].empty {
      InsertAtEmpty(t, key, h, value, home, k, carry, d, stop);
      UpdateCounts(t, pos, carry);
    } else if d > t[pos].distance {
      InsertAtFreshSwap(t, key, h, value, home, k, carry, d, stop);
    } else {
      InsertAtFreshPass(t, key, h, value, home, k, carry, d, stop);
    }
  }

  /** The swap step of `InsertAtFresh`. */
  lemma {:induction false} InsertAtFreshSwap<V>(t: Table<V>, key: string, h: bv32, value: Option<V>, home: nat,
                                            k: nat, carry: Entry<V>, d: int8, stop: nat)
    requires home < |t| && k <= stop < |t| && t[Slot(home, stop, |t|)].empty && !carry.empty
    requires forall i :: 0 <= i < |t| && !t[i].empty && t[i].key == key ==> StepTo(home, i, |t|) < k
    requires !t[Slot(home, k, |t|)].empty && d > t[Slot(home, k, |t|)].distance
    ensures InsertAt(t, key, h, value, home, k, carry, d, stop).1
    ensures multiset(KeysOf(InsertAt(t, key, h, value, home, k, carry, d, stop).0))
         == multiset(KeysOf(t)) + multiset{carry.key}
    decreases stop - k, 0
  {
    var n := |t|;
    var pos := Slot(home, k, n);
    var existing := t[pos];
    assert existing.key != key;
    var next := k + 1;
    var t' := t[pos := carry];
    SlotsDistinct(home, k, stop, n);
    var r := InsertAt(t', key, h, value, home, next, existing, Inc8(carry.distance), stop);
    InsertAtSwap(t, key, h, value, home, k, carry, d, stop);
    assert InsertAt(t, key, h, value, home, k, carry, d, stop) == r;
    InsertAtFresh(t', key, h, value, home, next, existing, Inc8(carry.distance), stop);
    assert r.1;
    assert multiset(KeysOf(r.0)) == multiset(KeysOf(t')) + multiset{existing.key};
    SwapCounts(t, pos, carry);
  }

  /** The step of `InsertAtFresh` that passes an occupied slot without swapping. */
  lemma {:induction false} InsertAtFreshPass<V>(t: Table<V>, key: string, h: bv32, value: Option<V>, home: nat,
                                            k: nat, carry: Entry<V>, d: int8, stop: nat)
    requires home < |t| && k <= stop < |t| && t[Slot(home, stop, |t|)].empty && !carry.empty
    requires forall i :: 0 <= i < |t| && !t[i].empty && t[i].key == key ==> StepTo(home, i, |t|) < k
    requires !t[Slot(home, k, |t|)].empty && d <= t[Slot(home, k, |t|)].distance
    ensures InsertAt(t, key, h, value, home, k, carry, d, stop).1
    ensures multiset(KeysOf(InsertAt(t, key, h, value, home, k, carry, d, stop).0))
         == multiset(KeysOf(t)) + multiset{carry.key}
    decreases stop - k, 0
  {
    var pos := Slot(home, k, |t|);
    assert t[pos].key != key;
    SlotsDistinct(home, k, stop, |t|);
    var next := k + 1;
    var r := InsertAt(t, key, h, value, home, next, carry, Inc8(d), stop);
    InsertAtPass(t, key, h, value, home, k, carry, d, stop);
    assert InsertAt(t, key, h, value, home, k, carry, d, stop) == r;
    InsertAtFresh(t, key, h, value, home, next, carry, Inc8(d), stop);
  }

  /** Put's probe is at step `k` from `home`, carrying `carry` at distance `d`, with the vacant
      slot at step `stop` ahead, and from here it ends with `target`. */
  ghost predicate InsertProbe<V>(t: Table<V>, key: string, h: bv32, value: Option<V>, home: nat,
                                 k: nat, carry: Entry<V>, d: int8, stop: nat, target: (Table<V>, bool))
  {
    home < |t| && k <= stop < |t| && t[Slot(home, stop, |t|)].empty && !carry.empty
    && InsertAt(t, key, h, value, home, k, carry, d, stop) == target
  }

  /** `InsertProbe` at an `Empty` slot: the probe ends by writing the carried entry there. */
  lemma InsertProbeEmpty<V>(t: Table<V>, key: string, h: bv32, value: Option<V>, home: nat,
                            k: nat, carry: Entry<V>, d: int8, stop: nat, target: (Table<V>, bool))
    requires InsertProbe(t, key, h, value, home, k, carry, d, stop, target)
    requires t[Slot(home, k, |t|)].empty
    ensures target == (t[Slot(home, k, |t|) := carry], true)
  {
    InsertAtEmpty(t, key, h, value, home, k, carry, d, stop);
  }

  /** `InsertProbe` at the slot holding the key: the probe ends by updating its value. */
  lemma InsertProbeMatch<V>(t: Table<V>, key: string, h: bv32, value: Option<V>, home: nat,
                            k: nat, carry: Entry<V>, d: int8, stop: nat, target: (Table<V>, bool))
    requires InsertProbe(t, key, h, value, home, k, carry, d, stop, target)
    requires var e := t[Slot(home, k, |t|)]; !e.empty && e.hash == h && e.key == key
    ensures var p := Slot(home, k, |t|); target == (t[p := t[p].(value := value)], false)
  {
    InsertAtMatch(t, key, h, value, home, k, carry, d, stop);
  }

  /** `InsertProbe` across a swap: the probe goes on one step later, carrying the displaced entry. */
  lemma InsertProbeSwap<V>(t: Table<V>, key: string, h: bv32, value: Option<V>, home: nat,
                           k: nat, carry: Entry<V>, d: int8, stop: nat, target: (Table<V>, bool))
    requires InsertProbe(t, key, h, value, home, k, carry, d, stop, target)
    requires var e := t[Slot(home, k, |t|)]; !e.empty && !(e.hash == h && e.key == key) && d > e.distance
    ensures k + 1 < |t|
    ensures var p := Slot(home, k, |t|);
      InsertProbe(t[p := carry], key, h, value, home, k + 1, t[p], Inc8(carry.distance), stop, target)
  {
    InsertAtSwap(t, key, h, value, home, k, carry, d, stop);
    SlotsDistinct(home, k, stop, |t|);
  }

  /** `InsertProbe` past an occupied slot that is not swapped: the probe goes on one step later. */
  lemma InsertProbePass<V>(t: Table<V>, key: string, h: bv32, value: Option<V>, home: nat,
                           k: nat, carry: Entry<V>, d: int8, stop: nat, target: (Table<V>, bool))
    requires InsertProbe(t, key, h, value, home, k, carry, d, stop, target)
    requires var e := t[Slot(home, k, |t|)]; !e.empty && !(e.hash == h && e.key == key) && d <= e.distance
    ensures k + 1 < |t|
    ensures InsertProbe(t, key, h, value, home, k + 1, carry, Inc8(d), stop, target)
  {
    InsertAtPass(t, key, h, value, home, k, carry, d, stop);
  }

  /** The step of Put's probe that reaches an `Empty` slot writes the carried entry there. */
  lemma InsertAtEmpty<V>(t: Table<V>, key: string, h: bv32, value: Option<V>, home: nat,
                         k: nat, carry: Entry<V>, d: int8, stop: nat)
    requires home < |t| && k <= stop < |t| && t[Slot(home, stop, |t|)].empty && !carry.empty
    requires t[Slot(home, k, |t|)].empty
    ensures InsertAt(t, key, h, value, home, k, carry, d, stop) == (t[Slot(home, k, |t|) := carry], true)
  {
  }

  /** The step of Put's probe that finds the key updates that slot's value. */
  lemma InsertAtMatch<V>(t: Table<V>, key: string, h: bv32, value: Option<V>, home: nat,
                         k: nat, carry: Entry<V>, d: int8, stop: nat)
    requires home < |t| && k <= stop < |t| && t[Slot(home, stop, |t|)].empty && !carry.empty
    requires var e := t[Slot(home, k, |t|)]; !e.empty && e.hash == h && e.key == key
    ensures var p := Slot(home, k, |t|);
      InsertAt(t, key, h, value, home, k, carry, d, stop) == (t[p := t[p].(value := value)], false)
  {
  }

  /** One step of Put's probe that swaps the carried entry into an occupied, non-matching slot. */
  lemma InsertAtSwap<V>(t: Table<V>, key: string, h: bv32, value: Option<V>, home: nat,
                        k: nat, carry: Entry<V>, d: int8, stop: nat)
    requires home < |t| && k <= stop < |t| && t[Slot(home, stop, |t|)].empty && !carry.empty
    requires var e := t[Slot(home, k, |t|)]; !e.empty && !(e.hash == h && e.key == key) && d > e.distance
    ensures k < stop
    ensures InsertAt(t, key, h, value, home, k, carry, d, stop)
         == InsertAt(t[Slot(home, k, |t|) := carry], key, h, value, home, k + 1, t[Slot(home, k, |t|)],
                     Inc8(carry.distance), stop)
  {
  }

  /** One step of Put's probe that passes an occupied, non-matching slot without swapping. */
  lemma InsertAtPass<V>(t: Table<V>, key: string, h: bv32, value: Option<V>, home: nat,
                        k: nat, carry: Entry<V>, d: int8, stop: nat)
    requires home < |t| && k <= stop < |t| && t[Slot(home, stop, |t|)].empty && !carry.empty
    requires var e := t[Slot(home, k, |t|)]; !e.empty && !(e.hash == h && e.key == key) && d <= e.distance
    ensures k < stop
    ensures InsertAt(t, key, h, value, home, k, carry, d, stop)
         == InsertAt(t, key, h, value, home, k + 1, carry, Inc8(d), stop)
  {
  }

  /** One step of Delete's backward shift that moves the next entry back into the gap. */
  lemma ShiftBackMove<V>(t: Table<V>, home: nat, k: nat, stop: nat)
    requires home < |t| && k < stop < |t| && t[Slot(home, stop, |t|)].empty && !t[Slot(home, k, |t|)].empty
    requires var e := t[Slot(home, k + 1, |t|)]; !e.empty && e.distance != 0
    ensures k + 1 < stop && Slot(home, k, |t|) != Slot(home, k + 1, |t|)
    ensures Slot(home, k, |t|) != Slot(home, stop, |t|)
    ensures var next := t[Slot(home, k + 1, |t|)];
      ShiftBack(t, home, k, stop)
      == ShiftBack(t[Slot(home, k, |t|) := next.(distance := Dec8(next.distance))], home, k + 1, stop)
  {
    SlotsDistinct(home, k, k + 1, |t|);
    SlotsDistinct(home, k + 1, stop, |t|);
    SlotsDistinct(home, k, stop, |t|);
  }

  /** The last step of Delete's backward shift: the gap is cleared. */
  lemma ShiftBackLast<V>(t: Table<V>, home: nat, k: nat, stop: nat)
    requires home < |t| && k < stop < |t| && t[Slot(home, stop, |t|)].empty && !t[Slot(home, k, |t|)].empty
    requires var e := t[Slot(home, k + 1, |t|)]; e.empty || e.distance == 0
    ensures ShiftBack(t, home, k, stop) == t[Slot(home, k, |t|) := Cleared(t[Slot(home, k, |t|)])]
  {
  }

  /** One step of Get's probe that passes an occupied, non-matching slot. */
  lemma GetAtPass<V>(t: Table<V>, key: string, h: bv32, home: nat, k: nat, d: int8, stop: nat)
    requires home < |t| && k <= stop < |t| && t[Slot(home, stop, |t|)].empty
    requires var e := t[Slot(home, k, |t|)]; !e.empty && d <= e.distance && !(e.hash == h && e.key == key)
    ensures k < stop
    ensures GetAt(t, key, h, home, k, d, stop) == GetAt(t, key, h, home, k + 1, Inc8(d), stop)
  {
  }

  /** One step of Delete's search that passes an occupied, non-matching slot. */
  /** The search of Delete at step `k` with probe distance `d`, below a vacant slot at step
      `stop`, ends with `target`. */
  ghost predicate DeleteProbe<V>(t: Table<V>, key: string, h: bv32, home: nat, k: nat, d: int8, stop: nat,
                                 target: (Table<V>, bool))
  {
    home < |t| && k <= stop < |t| && t[Slot(home, stop, |t|)].empty
    && DeleteAt(t, key, h, home, k, d, stop) == target
  }

  lemma DeleteAtPass<V>(t: Table<V>, key: string, h: bv32, home: nat, k: nat, d: int8, stop: nat)
    requires home < |t| && k <= stop < |t| && t[Slot(home, stop, |t|)].empty
    requires var e := t[Slot(home, k, |t|)]; !e.empty && d <= e.distance && !(e.hash == h && e.key == key)
    ensures k < stop
    ensures DeleteAt(t, key, h, home, k, d, stop) == DeleteAt(t, key, h, home, k + 1, Inc8(d), stop)
  {
  }

  /** A swap trades the slot's key for the carried key. */
  lemma SwapCounts<V>(t: Table<V>, pos: nat, carry: Entry<V>)
    requires pos < |t| && !t[pos].empty && !carry.empty
    ensures multiset(KeysOf(t[pos := carry])) + multiset{t[pos].key} == multiset(KeysOf(t)) + multiset{carry.key}
  {
    var u := t[pos := carry];
    SplitCounts(t, pos);
    SplitCounts(u, pos);
    assert u[..pos] == t[..pos] && u[pos + 1..] == t[pos + 1..];
  }

  /** Inserting a key that is not in the table writes a vacant slot and adds exactly that key. */
  lemma InsertFresh<V>(t: Table<V>, key: string, h: bv32, value: Option<V>)
    requires 0 < |t| && Occupied(t) < |t| && key !in KeysOf(t)
    ensures var r := Insert(t, key, h, value);
      r.1 && multiset(KeysOf(r.0)) == multiset(KeysOf(t)) + multiset{key}
  {
    var home := Home(h, |t|);
    var stop := StopStep(t, home);
    forall i | 0 <= i < |t| && !t[i].empty
      ensures t[i].key != key
    {
      KeyListed(t, i);
    }
    InsertAtFresh(t, key, h, value, home, 0, Entry(key, value, h, 0, false), 0, stop);
  }

  /** The rehash loop of `resize` moves a duplicate-free set of keys over unchanged. */
  lemma {:induction false} RehashKeys<V>(src: Table<V>, t: Table<V>, hash: string -> bv32)
    requires 0 < |t| && Occupied(t) + Occupied(src) < |t|
    requires NoDuplicates(KeysOf(t) + KeysOf(src))
    ensures multiset(KeysOf(Rehash(src, t, hash))) == multiset(KeysOf(t)) + multiset(KeysOf(src))
    decreases |src|
  {
    if |src| > 0 {
      var init, last := src[..|src| - 1], src[|src| - 1];
      var before := KeysOf(t) + KeysOf(init);
      if last.empty {
        assert KeysOf(src) == KeysOf(init);
        RehashKeys(init, t, hash);
      } else {
        assert KeysOf(src) == KeysOf(init) + [last.key];
        assert KeysOf(t) + KeysOf(src) == before + [last.key];
        NoDuplicatesSnoc(before, last.key);
        RehashKeys(init, t, hash);
        var t' := Rehash(init, t, hash);
        assert last.key !in multiset(KeysOf(t'));
        InsertFresh(t', last.key, hash(last.key), last.value);
      }
    }
  }

  lemma NoDuplicatesSnoc(s: seq<string>, x: string)
    requires NoDuplicates(s + [x])
    ensures NoDuplicates(s) && x !in s
  {
    forall i, j | 0 <= i < j < |s|
      ensures s[i] != s[j]
    {
      assert (s + [x])[i] == s[i] && (s + [x])[j] == s[j];
    }
    forall i | 0 <= i < |s|
      ensures s[i] != x
    {
      assert (s + [x])[i] == s[i] && (s + [x])[|s|] == x;
    }
  }

  /** The occupied slots of a prefix, one slot at a time, never more than the whole. */
  lemma PrefixOccupied<V>(src: Table<V>, j: nat)
    requires j < |src|
    ensures Occupied(src[..j]) + Weight(src[j]) == Occupied(src[..j + 1]) <= Occupied(src)
  {
    assert src[..j + 1][..j] == src[..j];
    PrefixAtMost(src, j + 1);
  }

  /** A prefix holds no more occupied slots than the whole table. */
  lemma {:induction false} PrefixAtMost<V>(src: Table<V>, i: nat)
    requires i <= |src|
    ensures Occupied(src[..i]) <= Occupied(src)
    decreases |src|
  {
    if i == |src| {
      assert src[..i] == src;
    } else {
      var init := src[..|src| - 1];
      assert init[..i] == src[..i];
      PrefixAtMost(init, i);
    }
  }

  /** The rehash loop of `resize` one old slot further: slot `j` is re-Put when occupied. */
  lemma RehashStep<V>(src: Table<V>, j: nat, t: Table<V>, hash: string -> bv32)
    requires j < |src| && 0 < |t| && Occupied(t) + Occupied(src) < |t|
    ensures Occupied(src[..j]) + Weight(src[j]) == Occupied(src[..j + 1]) <= Occupied(src)
    ensures Rehash(src[..j + 1], t, hash)
         == if src[j].empty then Rehash(src[..j], t, hash)
            else Insert(Rehash(src[..j], t, hash), src[j].key, hash(src[j].key), src[j].value).0
  {
    PrefixOccupied(src, j);
    var p := src[..j + 1];
    assert p[..j] == src[..j] && p[j] == src[j] && |p| == j + 1;
  }

  /** `resize` doubles the table and, when the old table holds no duplicate keys, the new table
      holds exactly the old keys (and so as many entries). */
  lemma ResizeKeys<V>(t: Table<V>, hash: string -> bv32)
    requires 0 < |t| && Occupied(t) < |t| && NoDuplicates(KeysOf(t))
    ensures |Resize(t, hash)| == 2 * |t|
    ensures multiset(KeysOf(Resize(t, hash))) == multiset(KeysOf(t))
    ensures Occupied(Resize(t, hash)) == Occupied(t)
  {
    EmptyOccupied<V>(2 * |t|);
    assert KeysOf(EmptyTable<V>(2 * |t|)) + KeysOf(t) == KeysOf(t);
    RehashKeys(t, EmptyTable(2 * |t|), hash);
    assert |multiset(KeysOf(Resize(t, hash)))| == |multiset(KeysOf(t))|;
  }

  /** `Put` changes the entry count by at most one: by one exactly when it writes a vacant
      slot (lines 76-80), by none when it overwrites a matching slot's value (lines 83-87). A
      resize first rebuilds the table; without duplicate keys it keeps the count. */
  lemma PutCount<V>(t: Table<V>, hash: string -> bv32, key: string, value: Option<V>)
    requires WellFormed(t, hash)
    requires NeedsResize(t) ==> NoDuplicates(KeysOf(t))
    ensures var r := Put(t, hash, key, value);
      Occupied(r.0) == Occupied(t) + (if r.1 then 1 else 0)
  {
    if NeedsResize(t) {
      ResizeKeys(t, hash);
    }
  }

  /** A re-Put of a key that already sits at step `j` of its probe, behind occupied slots only,
      reaches that slot before any `Empty` one and overwrites it (line 83): it fills no slot. So
      when `resize` (lines 202-206) re-Puts a second copy of a key, which the drop of
      `RobinHoodFindings.PutDropsCarriedEntry` can leave behind, the new table has fewer occupied
      slots than the old one. */
  lemma {:induction false} InsertAtReachesKey<V>(t: Table<V>, key: string, h: bv32, value: Option<V>,
                                                 home: nat, k: nat, carry: Entry<V>, d: int8, stop: nat, j: nat)
    requires home < |t| && k <= j <= stop < |t| && t[Slot(home, stop, |t|)].empty && !carry.empty
    requires forall i :: k <= i <= j ==> !t[Slot(home, i, |t|)].empty
    requires t[Slot(home, j, |t|)].hash == h && t[Slot(home, j, |t|)].key == key
    ensures !InsertAt(t, key, h, value, home, k, carry, d, stop).1
    decreases j - k
  {
    var pos := Slot(home, k, |t|);
    var e := t[pos];
    if !(e.hash == h && e.key == key) {
      assert k < j;
      SlotsDistinct(home, k, stop, |t|);
      if d > e.distance {
        InsertAtSwap(t, key, h, value, home, k, carry, d, stop);
        var u := t[pos := carry];
        forall i | k + 1 <= i <= j
          ensures !u[Slot(home, i, |t|)].empty
        {
          SlotsDistinct(home, k, i, |t|);
        }
        SlotsDistinct(home, k, j, |t|);
        InsertAtReachesKey(u, key, h, value, home, k + 1, e, Inc8(carry.distance), stop, j);
      } else {
        InsertAtPass(t, key, h, value, home, k, carry, d, stop);
        InsertAtReachesKey(t, key, h, value, home, k + 1, carry, Inc8(d), stop, j);
      }
    }
  }

  /** A key already in its home slot is updated in place: only that slot's value changes. */
  lemma PutUpdatesHome<V>(t: Table<V>, hash: string -> bv32, key: string, value: Option<V>)
    requires WellFormed(t, hash) && !NeedsResize(t)
    requires var home := Home(hash(key), |t|); !t[home].empty && t[home].key == key
    ensures var home := Home(hash(key), |t|);
      Put(t, hash, key, value) == (t[home := t[home].(value := value)], false)
  {
    SlotZero(Home(hash(key), |t|), |t|);
    assert ConsistentAt(t, hash, Home(hash(key), |t|));
  }

  /** Get after Put, for a key that Put left in its own home slot: Get returns the value put. */
  lemma GetAfterPutAtHome<V>(t: Table<V>, hash: string -> bv32, key: string, value: Option<V>)
    requires WellFormed(t, hash)
    requires var r := Put(t, hash, key, value).0;
      var home := Home(hash(key), |r|); !r[home].empty && r[home].key == key
    ensures Get(Put(t, hash, key, value).0, hash, key) == (value, true)
  {
    var t1 := if NeedsResize(t) then Resize(t, hash) else t;
    if NeedsResize(t) {
      EmptyOccupied<V>(2 * |t|);
      RehashConsistent(t, EmptyTable(2 * |t|), hash);
    }
    PutWellFormed(t, hash, key, value);
    var r := Put(t, hash, key, value).0;
    var h := hash(key);
    var home := Home(h, |t1|);
    var stop := StopStep(t1, home);
    SlotZero(home, |t1|);
    assert ConsistentAt(t1, hash, home);
    var existing := t1[home];
    if !existing.empty && !(existing.hash == h && existing.key == key) {
      assert stop != 0;
      InsertAtFrame(t1, key, h, value, home, 1, Entry(key, value, h, 0, false), 1, stop, 0);
      assert false;
    }
    GetAtHome(r, hash, key);
  }

  /** Put stores its key with its value in some slot. */
  lemma {:induction false} InsertAtStores<V>(t: Table<V>, key: string, h: bv32, value: Option<V>, home: nat,
                                             k: nat, d: int8, stop: nat)
    requires home < |t| && k <= stop < |t| && t[Slot(home, stop, |t|)].empty
    ensures var r := InsertAt(t, key, h, value, home, k, Entry(key, value, h, 0, false), d, stop).0;
      exists i :: 0 <= i < |r| && !r[i].empty && r[i].key == key && r[i].value == value
    decreases stop - k
  {
    var carry := Entry(key, value, h, 0, false);
    var r := InsertAt(t, key, h, value, home, k, carry, d, stop).0;
    var pos := Slot(home, k, |t|);
    var existing := t[pos];
    if existing.empty {
      assert r == t[pos := carry];
      assert 0 <= pos < |r| && !r[pos].empty && r[pos].key == key && r[pos].value == value;
      assert exists i :: 0 <= i < |r| && !r[i].empty && r[i].key == key && r[i].value == value;
      assert r == InsertAt(t, key, h, value, home, k, Entry(key, value, h, 0, false), d, stop).0;
    } else if existing.hash == h && existing.key == key {
      assert r == t[pos := existing.(value := value)];
      assert 0 <= pos < |r| && !r[pos].empty && r[pos].key == key && r[pos].value == value;
      assert r == InsertAt(t, key, h, value, home, k, Entry(key, value, h, 0, false), d, stop).0;
    } else {
      SlotsDistinct(home, k, stop, |t|);
      if d > existing.distance {
        InsertAtSwap(t, key, h, value, home, k, carry, d, stop);
        InsertAtFrame(t[pos := carry], key, h, value, home, k + 1, existing, Inc8(carry.distance), stop, k);
        assert 0 <= pos < |r| && !r[pos].empty && r[pos].key == key && r[pos].value == value;
      } else {
        InsertAtStores(t, key, h, value, home, k + 1, Inc8(d), stop);
      }
    }
  }
}
