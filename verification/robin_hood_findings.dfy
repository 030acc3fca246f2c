/** Two defects of custom_map/custom_map.go that follow from every `Distance` field staying 0,
    each shown on the table functions that model the code as written, next to a corrected
    definition with the property the map is meant to have.

    1. Get misses displaced keys. Put places a key whose home slot is taken somewhere further
       along the probe, but Get gives up one slot past the home slot, so it never finds it.
       Corrected: `GetProbing`, which probes until a vacant slot.
    2. Put drops an entry. After a swap the loop carries a displaced entry but still compares
       slots with Put's own key; when a later slot holds that key, the value is updated and the
       carried entry is discarded. Corrected: `PutKeeping`, which updates an existing key in
       place and only otherwise runs the insertion probe. */
module RobinHoodFindings {
  import opened Wrappers
  import opened RobinHoodSpec
  import opened RobinHoodProps

  // ---------------------------------------------------------------------------------------
  // Finding 1: Get misses displaced keys

  /** As written: when the key's home slot already holds another key, Put stores the key in
      some slot, and yet Get then reports it absent. */
  lemma DisplacedKeyMissed<V>(t: Table<V>, hash: string -> bv32, key: string, value: Option<V>)
    requires WellFormed(t, hash) && !NeedsResize(t)
    requires var home := Home(hash(key), |t|); !t[home].empty && t[home].key != key
    ensures var r := Put(t, hash, key, value).0;
      (exists i :: 0 <= i < |r| && !r[i].empty && r[i].key == key && r[i].value == value)
      && Get(r, hash, key) == (None, false)
  {
    var h := hash(key);
    var home := Home(h, |t|);
    var stop := StopStep(t, home);
    var carry := Entry(key, value, h, 0, false);
    var r := Put(t, hash, key, value).0;
    assert r == InsertAt(t, key, h, value, home, 0, carry, 0, stop).0;
    assert ConsistentAt(t, hash, home);
    InsertAtStores(t, key, h, value, home, 0, 0, stop);
    InsertAtPass(t, key, h, value, home, 0, carry, 0, stop);
    InsertAtFrame(t, key, h, value, home, 1, carry, 1, stop, 0);
    assert r[home] == t[home];
    PutWellFormed(t, hash, key, value);
    GetAtHome(r, hash, key);
  }

  /** The corrected lookup at step `k`: probe slot after slot until a vacant slot or until every
      slot has been seen, comparing hash and key, and ignoring `Distance`. */
  function ProbeAt<V>(t: Table<V>, key: string, h: bv32, home: nat, k: nat): (r: (Option<V>, bool))
    requires home < |t| && k <= |t|
    ensures r.1 ==> exists i :: 0 <= i < |t| && !t[i].empty && t[i].key == key && t[i].value == r.0
    ensures !r.1 ==> r.0 == None
    decreases |t| - k
  {
    if k == |t| then (None, false)
    else
      var entry := t[Slot(home, k, |t|)];
      if entry.empty then (None, false)
      else if entry.hash == h && entry.key == key then (entry.value, true)
      else ProbeAt(t, key, h, home, k + 1)
  }

  /** The corrected `Get`. */
  function GetProbing<V>(t: Table<V>, hash: string -> bv32, key: string): (r: (Option<V>, bool))
    requires 0 < |t|
    ensures r.1 ==> exists i :: 0 <= i < |t| && !t[i].empty && t[i].key == key && t[i].value == r.0
    ensures !r.1 ==> r.0 == None
  {
    ProbeAt(t, key, hash(key), Home(hash(key), |t|), 0)
  }

  /** Put's probe from step `k`, while it still carries the new entry, leaves a table in which
      the corrected lookup from step `k` finds the value put: at the vacant slot or at the
      matching slot where the probe ends, or at the slot of the first swap. */
  lemma {:induction false} InsertThenProbe<V>(t: Table<V>, key: string, h: bv32, value: Option<V>, home: nat,
                                              k: nat, d: int8, stop: nat)
    requires home < |t| && k <= stop < |t| && t[Slot(home, stop, |t|)].empty
    ensures var r := InsertAt(t, key, h, value, home, k, Entry(key, value, h, 0, false), d, stop).0;
      |r| == |t| && ProbeAt(r, key, h, home, k) == (value, true)
    decreases stop - k
  {
    var carry := Entry(key, value, h, 0, false);
    var pos := Slot(home, k, |t|);
    var existing := t[pos];
    if existing.empty || (existing.hash == h && existing.key == key) {
      InsertThenProbeEnd(t, key, h, value, home, k, d, stop);
    } else if d > existing.distance {
      InsertThenProbeSwap(t, key, h, value, home, k, d, stop);
    } else {
      var r := InsertAt(t, key, h, value, home, k, carry, d, stop).0;
      InsertAtPass(t, key, h, value, home, k, carry, d, stop);
      InsertThenProbe(t, key, h, value, home, k + 1, Inc8(d), stop);
      InsertAtFrame(t, key, h, value, home, k + 1, carry, Inc8(d), stop, k);
      assert r[pos] == existing;
      assert ProbeAt(r, key, h, home, k) == ProbeAt(r, key, h, home, k + 1);
    }
  }

  /** The probe ends at step `k`, in a vacant or a matching slot. */
  lemma InsertThenProbeEnd<V>(t: Table<V>, key: string, h: bv32, value: Option<V>, home: nat,
                                 k: nat, d: int8, stop: nat)
    requires home < |t| && k <= stop < |t| && t[Slot(home, stop, |t|)].empty
    requires var e := t[Slot(home, k, |t|)]; e.empty || (e.hash == h && e.key == key)
    ensures var r := InsertAt(t, key, h, value, home, k, Entry(key, value, h, 0, false), d, stop).0;
      |r| == |t| && ProbeAt(r, key, h, home, k) == (value, true)
  {
    var carry := Entry(key, value, h, 0, false);
    var pos := Slot(home, k, |t|);
    var existing := t[pos];
    var r := InsertAt(t, key, h, value, home, k, carry, d, stop).0;
    if existing.empty {
      assert r == t[pos := carry];
    } else {
      assert r == t[pos := existing.(value := value)];
    }
  }

  /** The probe swaps the new entry into the slot at step `k`. */
  lemma InsertThenProbeSwap<V>(t: Table<V>, key: string, h: bv32, value: Option<V>, home: nat,
                                  k: nat, d: int8, stop: nat)
    requires home < |t| && k <= stop < |t| && t[Slot(home, stop, |t|)].empty
    requires var e := t[Slot(home, k, |t|)]; !e.empty && !(e.hash == h && e.key == key) && d > e.distance
    ensures var r := InsertAt(t, key, h, value, home, k, Entry(key, value, h, 0, false), d, stop).0;
      |r| == |t| && ProbeAt(r, key, h, home, k) == (value, true)
  {
    var carry := Entry(key, value, h, 0, false);
    var pos := Slot(home, k, |t|);
    var existing := t[pos];
    var r := InsertAt(t, key, h, value, home, k, carry, d, stop).0;
    InsertAtSwap(t, key, h, value, home, k, carry, d, stop);
    InsertAtFrame(t[pos := carry], key, h, value, home, k + 1, existing, Inc8(carry.distance), stop, k);
    assert r[pos] == carry;
  }

  /** Corrected: after Put, the corrected lookup returns the value put, whatever the table. */
  lemma GetProbingAfterPut<V>(t: Table<V>, hash: string -> bv32, key: string, value: Option<V>)
    requires 0 < |t| && Occupied(t) < |t|
    ensures GetProbing(Put(t, hash, key, value).0, hash, key) == (value, true)
  {
    var t1 := if NeedsResize(t) then Resize(t, hash) else t;
    if NeedsResize(t) {
      EmptyOccupied<V>(2 * |t|);
    }
    var h := hash(key);
    var home := Home(h, |t1|);
    var stop := StopStep(t1, home);
    var r := InsertAt(t1, key, h, value, home, 0, Entry(key, value, h, 0, false), 0, stop).0;
    assert Put(t, hash, key, value).0 == r;
    InsertThenProbe(t1, key, h, value, home, 0, 0, stop);
  }

  // ---------------------------------------------------------------------------------------
  // Finding 2: Put drops the entry it carries

  /** As written: the key sits two slots past its home, behind two other keys. Put passes the
      home slot, swaps the new entry into the next slot, carries that slot's entry on, finds the
      key in the slot after, updates it and returns: the carried entry is gone. */
  lemma PutDropsCarriedEntry<V>(t: Table<V>, hash: string -> bv32, key: string, value: Option<V>)
    requires WellFormed(t, hash) && !NeedsResize(t)
    requires var home := Home(hash(key), |t|);
      var p0, p1, p2 := Slot(home, 0, |t|), Slot(home, 1, |t|), Slot(home, 2, |t|);
      !t[p0].empty && t[p0].key != key && !t[p1].empty && t[p1].key != key && !t[p2].empty && t[p2].key == key
    ensures var home := Home(hash(key), |t|);
      var p1, p2 := Slot(home, 1, |t|), Slot(home, 2, |t|);
      Put(t, hash, key, value)
        == (t[p1 := Entry(key, value, hash(key), 0, false)][p2 := t[p2].(value := value)], false)
    ensures var home := Home(hash(key), |t|);
      multiset(KeysOf(Put(t, hash, key, value).0))
        == multiset(KeysOf(t)) - multiset{t[Slot(home, 1, |t|)].key} + multiset{key}
  {
    var h := hash(key);
    var home := Home(h, |t|);
    var p1, p2 := Slot(home, 1, |t|), Slot(home, 2, |t|);
    var carry := Entry(key, value, h, 0, false);
    PutDropsTable(t, hash, key, value);
    SlotsDistinct(home, 1, 2, |t|);
    OverwriteKeys(t, p1, p2, carry, t[p2].(value := value));
  }

  /** Overwriting slot `i` with `x` and then slot `j`, which holds `x`'s key, with an entry of
      that same key: `t[i]`'s key is gone and `x`'s key is there once more. */
  lemma OverwriteKeys<V>(t: Table<V>, i: nat, j: nat, x: Entry<V>, y: Entry<V>)
    requires i < |t| && j < |t| && i != j && !t[i].empty
    requires !x.empty && !t[j].empty && !y.empty && t[j].key == x.key && y.key == x.key
    ensures multiset(KeysOf(t[i := x][j := y])) == multiset(KeysOf(t)) - multiset{t[i].key} + multiset{x.key}
  {
    var t' := t[i := x];
    UpdateCounts(t, i, x);
    assert t'[j] == t[j];
    UpdateCounts(t', j, y);
    AddBack(multiset(KeysOf(t')), x.key);
  }

  /** The table `PutDropsCarriedEntry` describes. */
  lemma PutDropsTable<V>(t: Table<V>, hash: string -> bv32, key: string, value: Option<V>)
    requires WellFormed(t, hash) && !NeedsResize(t)
    requires var home := Home(hash(key), |t|);
      var p0, p1, p2 := Slot(home, 0, |t|), Slot(home, 1, |t|), Slot(home, 2, |t|);
      !t[p0].empty && t[p0].key != key && !t[p1].empty && t[p1].key != key && !t[p2].empty && t[p2].key == key
    ensures var home := Home(hash(key), |t|);
      var p1, p2 := Slot(home, 1, |t|), Slot(home, 2, |t|);
      Put(t, hash, key, value)
        == (t[p1 := Entry(key, value, hash(key), 0, false)][p2 := t[p2].(value := value)], false)
  {
    var h := hash(key);
    var n := |t|;
    var home := Home(h, n);
    var stop := StopStep(t, home);
    var carry := Entry(key, value, h, 0, false);
    var p0, p1, p2 := Slot(home, 0, n), Slot(home, 1, n), Slot(home, 2, n);
    assert stop != 0 && stop != 1 && stop != 2;
    assert ConsistentAt(t, hash, p0) && ConsistentAt(t, hash, p1) && ConsistentAt(t, hash, p2);
    InsertAtPass(t, key, h, value, home, 0, carry, 0, stop);
    InsertAtSwap(t, key, h, value, home, 1, carry, 1, stop);
    var t' := t[p1 := carry];
    assert t'[p2] == t[p2];
    var r := t'[p2 := t[p2].(value := value)];
    assert InsertAt(t', key, h, value, home, 2, t[p1], 1, stop) == (r, false);
    assert Put(t, hash, key, value) == (r, false);
  }

  /** Taking out an element that is there and putting it back changes nothing. */
  lemma AddBack(m: multiset<string>, x: string)
    requires x in m
    ensures m - multiset{x} + multiset{x} == m
  {
  }

  /** The lowest-numbered slot holding `key`, if any. */
  function FindSlot<V>(t: Table<V>, key: string): (r: Option<nat>)
    ensures r.Some? ==> r.value < |t| && !t[r.value].empty && t[r.value].key == key
    ensures r.None? <==> key !in KeysOf(t)
  {
    if |t| == 0 then None
    else
      match FindSlot(t[..|t| - 1], key)
      case Some(i) => Some(i)
      case None => if !t[|t| - 1].empty && t[|t| - 1].key == key then Some(|t| - 1) else None
  }

  /** The corrected `Put`: after the load check, a key already present is updated in its slot;
      otherwise the insertion probe runs, which then never meets the key and so never drops an
      entry. Also returns whether an entry was added. */
  function PutKeeping<V>(t: Table<V>, hash: string -> bv32, key: string, value: Option<V>): (r: (Table<V>, bool))
    requires 0 < |t| && Occupied(t) < |t|
    ensures |r.0| == if NeedsResize(t) then 2 * |t| else |t|
  {
    var t1 := if NeedsResize(t) then Resize(t, hash) else t;
    match FindSlot(t1, key)
    case Some(i) => (t1[i := t1[i].(value := value)], false)
    case None => Insert(t1, key, hash(key), value)
  }

  /** Corrected: on a table without duplicate keys, Put adds its key exactly when it was absent,
      and keeps every other key. */
  lemma PutKeepingKeys<V>(t: Table<V>, hash: string -> bv32, key: string, value: Option<V>)
    requires 0 < |t| && Occupied(t) < |t| && NoDuplicates(KeysOf(t))
    ensures var r := PutKeeping(t, hash, key, value);
      (r.1 <==> key !in KeysOf(t))
      && multiset(KeysOf(r.0)) == multiset(KeysOf(t)) + (if r.1 then multiset{key} else multiset{})
  {
    var t1 := if NeedsResize(t) then Resize(t, hash) else t;
    if NeedsResize(t) {
      ResizeKeys(t, hash);
    }
    assert multiset(KeysOf(t1)) == multiset(KeysOf(t));
    assert key in KeysOf(t1) <==> key in KeysOf(t) by {
      assert key in KeysOf(t1) <==> key in multiset(KeysOf(t1));
      assert key in KeysOf(t) <==> key in multiset(KeysOf(t));
    }
    var r := PutKeeping(t, hash, key, value);
    match FindSlot(t1, key)
    case Some(i) =>
      assert r.0 == t1[i := t1[i].(value := value)];
      UpdateCounts(t1, i, t1[i].(value := value));
      AddBack(multiset(KeysOf(t1)), key);
    case None =>
      var h := hash(key);
      var home := Home(h, |t1|);
      InsertFresh(t1, key, h, value);
  }

  /** Corrected: Put stores the value put under its key. */
  lemma PutKeepingStores<V>(t: Table<V>, hash: string -> bv32, key: string, value: Option<V>)
    requires 0 < |t| && Occupied(t) < |t|
    ensures var r := PutKeeping(t, hash, key, value).0;
      exists i :: 0 <= i < |r| && !r[i].empty && r[i].key == key && r[i].value == value
  {
    var t1 := if NeedsResize(t) then Resize(t, hash) else t;
    var r := PutKeeping(t, hash, key, value).0;
    match FindSlot(t1, key)
    case Some(i) =>
      assert r == t1[i := t1[i].(value := value)];
      assert !r[i].empty && r[i].key == key && r[i].value == value;
    case None =>
      var h := hash(key);
      var home := Home(h, |t1|);
      var stop := StopStep(t1, home);
      assert r == InsertAt(t1, key, h, value, home, 0, Entry(key, value, h, 0, false), 0, stop).0;
      InsertAtStores(t1, key, h, value, home, 0, 0, stop);
  }
}
