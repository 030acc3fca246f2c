/** The Robin Hood hash map of custom_map/custom_map.go as functions on its slot table.

    A table is the `entries` slice. The probe loops of Put, Get and Delete start at the key's
    home slot `hash & mask` and advance one slot at a time with wrap-around; here the slot
    visited at step `k < n` is `Slot(home, k, n)`, which is `(home + k) % n`. Each probe function carries a
    ghost step `stop` whose slot is vacant: no probe loop runs past a vacant slot, so `stop - k`
    is the termination measure, and the table having a vacant slot is what makes the loops
    terminate. */
module RobinHoodSpec {
  import opened Wrappers
  import Bits

  /** Go's `int8`, the type of `Entry.Distance` and of the probe loops' `distance`. */
  newtype int8 = x: int | -128 <= x < 128

  /** `d++` on an `int8`: two's-complement wrap-around from 127 to -128. */
  function Inc8(d: int8): (r: int8)
    ensures r as int == (d as int + 129) % 256 - 128
  {
    if d == 127 then -128 else d + 1
  }

  /** `d--` on an `int8`: two's-complement wrap-around from -128 to 127. */
  function Dec8(d: int8): (r: int8)
    ensures r as int == (d as int + 127) % 256 - 128
  {
    if d == -128 then 127 else d - 1
  }

  /** One slot of the table (`Entry`). `value` is the stored `interface{}`; `None` is `nil`. */
  datatype Entry<V> = Entry(key: string, value: Option<V>, hash: bv32, distance: int8, empty: bool)

  /** The `entries` slice. */
  type Table<V> = seq<Entry<V>>

  /** A slot as the constructor and `resize` leave it: Go's zero `Entry` with `Empty` set. */
  function Vacant<V>(): Entry<V>
  {
    Entry("", None, 0, 0, true)
  }

  /** A slot after Delete clears it: `Empty`, `Key` and `Value` reset, `Hash` and `Distance` kept. */
  function Cleared<V>(e: Entry<V>): Entry<V>
  {
    e.(empty := true, key := "", value := None)
  }

  /** A fresh table of `n` vacant slots. */
  function EmptyTable<V>(n: nat): (t: Table<V>)
    ensures |t| == n && forall i :: 0 <= i < n ==> t[i] == Vacant()
  {
    seq(n, _ => Vacant())
  }

  // ---------------------------------------------------------------------------------------
  // Occupancy and the enumerators

  /** 1 for an occupied slot, 0 for an empty one. */
  function Weight<V>(e: Entry<V>): nat
  {
    if e.empty then 0 else 1
  }

  /** The key of an occupied slot, as a multiset of at most one element. */
  function Bag<V>(e: Entry<V>): multiset<string>
  {
    if e.empty then multiset{} else multiset{e.key}
  }

  /** The number of occupied (non-`Empty`) slots. */
  function Occupied<V>(t: Table<V>): (c: nat)
    ensures c <= |t|
  {
    if |t| == 0 then 0 else Occupied(t[..|t| - 1]) + Weight(t[|t| - 1])
  }

  /** What `Keys()` returns: the keys of the occupied slots, in slot order. */
  function KeysOf<V>(t: Table<V>): (keys: seq<string>)
    ensures |keys| == Occupied(t)
  {
    if |t| == 0 then []
    else KeysOf(t[..|t| - 1]) + (if t[|t| - 1].empty then [] else [t[|t| - 1].key])
  }

  /** What `Values()` returns: the values of the occupied slots, in slot order. */
  function ValuesOf<V>(t: Table<V>): (values: seq<Option<V>>)
    ensures |values| == Occupied(t)
  {
    if |t| == 0 then []
    else ValuesOf(t[..|t| - 1]) + (if t[|t| - 1].empty then [] else [t[|t| - 1].value])
  }

  /** `RHKeyValuePair`. */
  datatype KeyValuePair<V> = KeyValuePair(key: string, value: Option<V>)

  /** What `Entries()` returns: the key-value pairs of the occupied slots, in slot order. */
  function PairsOf<V>(t: Table<V>): (pairs: seq<KeyValuePair<V>>)
    ensures |pairs| == Occupied(t)
  {
    if |t| == 0 then []
    else PairsOf(t[..|t| - 1])
         + (if t[|t| - 1].empty then [] else [KeyValuePair(t[|t| - 1].key, t[|t| - 1].value)])
  }

  // ---------------------------------------------------------------------------------------
  // Probe positions

  /** The slot visited at step `k` of a probe that starts at `home` in a table of `n` slots:
      the start `hash & mask` advanced `k` times by `pos = (pos + 1) & mask`. Below `n` steps
      the position wraps around at most once. */
  function Slot(home: nat, k: nat, n: nat): (p: nat)
    requires home < n && k < n
    ensures p < n
  {
    if home + k < n then home + k else home + k - n
  }

  /** The step at which a probe starting at `home` visits slot `i`. */
  function StepTo(home: nat, i: nat, n: nat): (k: nat)
    requires home < n && i < n
    ensures k < n && Slot(home, k, n) == i
  {
    if i >= home then i - home else i + n - home
  }

  /** The home slot of a hash: `int(hash) & mask`, which is `hash % size` for a power-of-two size. */
  function Home(h: bv32, n: nat): (p: nat)
    requires n > 0
    ensures p < n
  {
    (h as int) % n
  }

  /** The lowest vacant index at or after `i`. */
  function FindVacant<V>(t: Table<V>, i: nat): (r: nat)
    requires exists j :: i <= j < |t| && t[j].empty
    ensures i <= r < |t| && t[r].empty
    decreases |t| - i
  {
    if t[i].empty then i else FindVacant(t, i + 1)
  }

  /** A step at which a probe starting at `home` reaches a vacant slot. */
  function StopStep<V>(t: Table<V>, home: nat): (s: nat)
    requires home < |t| && Occupied(t) < |t|
    ensures s < |t| && t[Slot(home, s, |t|)].empty
  {
    VacancyExists(t);
    StepTo(home, FindVacant(t, 0), |t|)
  }

  // ---------------------------------------------------------------------------------------
  // Put (custom_map.go:56-106)

  /** The probe loop of Put (lines 73-105) at step `k`, carrying `carry` whose probe distance is
      `d`; `key`, `h` and `value` are Put's arguments, compared against at every step. Returns the
      new table and whether an `Empty` slot was written (the `count++` branch). */
  function InsertAt<V>(t: Table<V>, key: string, h: bv32, value: Option<V>, home: nat, k: nat,
                       carry: Entry<V>, d: int8, ghost stop: nat): (r: (Table<V>, bool))
    requires home < |t| && k <= stop < |t| && t[Slot(home, stop, |t|)].empty && !carry.empty
    ensures |r.0| == |t|
    decreases stop - k
  {
    var pos := Slot(home, k, |t|);
    var existing := t[pos];
    if existing.empty then
      (t[pos := carry], true)
    else if existing.hash == h && existing.key == key then
      (t[pos := existing.(value := value)], false)
    else
      SlotsDistinct(home, k, stop, |t|);
      if d > existing.distance then
        // swap: the carried entry takes the slot; `distance = existing.Distance` then reads the
        // entry just placed (line 93), and the loop continues with the displaced entry
        InsertAt(t[pos := carry], key, h, value, home, k + 1, existing, Inc8(carry.distance), stop)
      else
        InsertAt(t, key, h, value, home, k + 1, carry, Inc8(d), stop)
  }

  /** Put's probe fills one more slot exactly when it reports writing an `Empty` slot. */
  lemma {:induction false} InsertAtCount<V>(t: Table<V>, key: string, h: bv32, value: Option<V>, home: nat,
                                           k: nat, carry: Entry<V>, d: int8, stop: nat)
    requires home < |t| && k <= stop < |t| && t[Slot(home, stop, |t|)].empty && !carry.empty
    ensures var r := InsertAt(t, key, h, value, home, k, carry, d, stop);
      Occupied(r.0) == Occupied(t) + (if r.1 then 1 else 0)
    decreases stop - k, 1
  {
    var pos := Slot(home, k, |t|);
    var existing := t[pos];
    if existing.empty {
      UpdateOccupied(t, pos, carry);
    } else if existing.hash == h && existing.key == key {
      UpdateOccupied(t, pos, existing.(value := value));
    } else if d > existing.distance {
      InsertAtCountSwap(t, key, h, value, home, k, carry, d, stop);
    } else {
      InsertAtCountPass(t, key, h, value, home, k, carry, d, stop);
    }
  }

  /** `InsertAtCount` when the carried entry is swapped into the slot at step `k`. */
  lemma {:induction false} InsertAtCountSwap<V>(t: Table<V>, key: string, h: bv32, value: Option<V>, home: nat,
                                               k: nat, carry: Entry<V>, d: int8, stop: nat)
    requires home < |t| && k <= stop < |t| && t[Slot(home, stop, |t|)].empty && !carry.empty
    requires var e := t[Slot(home, k, |t|)]; !e.empty && !(e.hash == h && e.key == key) && d > e.distance
    ensures var r := InsertAt(t, key, h, value, home, k, carry, d, stop);
      Occupied(r.0) == Occupied(t) + (if r.1 then 1 else 0)
    decreases stop - k, 0
  {
    var pos := Slot(home, k, |t|);
    var t' := t[pos := carry];
    SlotsDistinct(home, k, stop, |t|);
    assert InsertAt(t, key, h, value, home, k, carry, d, stop)
        == InsertAt(t', key, h, value, home, k + 1, t[pos], Inc8(carry.distance), stop);
    UpdateOccupied(t, pos, carry);
    InsertAtCount(t', key, h, value, home, k + 1, t[pos], Inc8(carry.distance), stop);
  }

  /** `InsertAtCount` when the probe passes the slot at step `k` without a swap. */
  lemma {:induction false} InsertAtCountPass<V>(t: Table<V>, key: string, h: bv32, value: Option<V>, home: nat,
                                               k: nat, carry: Entry<V>, d: int8, stop: nat)
    requires home < |t| && k <= stop < |t| && t[Slot(home, stop, |t|)].empty && !carry.empty
    requires var e := t[Slot(home, k, |t|)]; !e.empty && !(e.hash == h && e.key == key) && d <= e.distance
    ensures var r := InsertAt(t, key, h, value, home, k, carry, d, stop);
      Occupied(r.0) == Occupied(t) + (if r.1 then 1 else 0)
    decreases stop - k, 0
  {
    SlotsDistinct(home, k, stop, |t|);
    assert InsertAt(t, key, h, value, home, k, carry, d, stop)
        == InsertAt(t, key, h, value, home, k + 1, carry, Inc8(d), stop);
    InsertAtCount(t, key, h, value, home, k + 1, carry, Inc8(d), stop);
  }

  /** Put's probe without the load check: start at the home slot with a new entry of distance 0. */
  function Insert<V>(t: Table<V>, key: string, h: bv32, value: Option<V>): (r: (Table<V>, bool))
    requires 0 < |t| && Occupied(t) < |t|
    ensures |r.0| == |t|
    ensures Occupied(r.0) == Occupied(t) + (if r.1 then 1 else 0)
  {
    var home := Home(h, |t|);
    var stop := StopStep(t, home);
    InsertAtCount(t, key, h, value, home, 0, Entry(key, value, h, 0, false), 0, stop);
    InsertAt(t, key, h, value, home, 0, Entry(key, value, h, 0, false), 0, stop)
  }

  /** The load check of line 57, `float64(count)/float64(size) > 0.75`, as the exact integer
      comparison (both operands are far below 2^53, so the float division is exact enough). */
  predicate NeedsResize<V>(t: Table<V>)
  {
    4 * Occupied(t) > 3 * |t|
  }

  /** `resize` (lines 189-207): a table of twice the size, into which every occupied slot of the
      old table is re-Put in slot order. */
  function Resize<V>(t: Table<V>, hash: string -> bv32): (r: Table<V>)
    requires 0 < |t| && Occupied(t) < |t|
    ensures |r| == 2 * |t| && Occupied(r) <= Occupied(t)
  {
    EmptyOccupied<V>(2 * |t|);
    Rehash(t, EmptyTable(2 * |t|), hash)
  }

  /** The rehash loop of `resize` (lines 202-206) over `src`, into `t`. Each `Put` recomputes the
      hash from the key. */
  function Rehash<V>(src: Table<V>, t: Table<V>, hash: string -> bv32): (r: Table<V>)
    requires 0 < |t| && Occupied(t) + Occupied(src) < |t|
    ensures |r| == |t| && Occupied(r) <= Occupied(t) + Occupied(src)
    decreases |src|
  {
    if |src| == 0 then t
    else
      var last := src[|src| - 1];
      var t' := Rehash(src[..|src| - 1], t, hash);
      if last.empty then t' else Insert(t', last.key, hash(last.key), last.value).0
  }

  /** `Put` (lines 56-106): resize when over the load factor, then probe. Also returns whether
      an `Empty` slot was written. */
  function Put<V>(t: Table<V>, hash: string -> bv32, key: string, value: Option<V>): (r: (Table<V>, bool))
    requires 0 < |t| && Occupied(t) < |t|
    ensures |r.0| == if NeedsResize(t) then 2 * |t| else |t|
  {
    var t1 := if NeedsResize(t) then Resize(t, hash) else t;
    Insert(t1, key, hash(key), value)
  }

  // ---------------------------------------------------------------------------------------
  // Get (custom_map.go:109-135)

  /** The probe loop of Get (lines 114-132) at step `k` with probe distance `d`. */
  function GetAt<V>(t: Table<V>, key: string, h: bv32, home: nat, k: nat, d: int8,
                    ghost stop: nat): (r: (Option<V>, bool))
    requires home < |t| && k <= stop < |t| && t[Slot(home, stop, |t|)].empty
    decreases stop - k
  {
    var entry := t[Slot(home, k, |t|)];
    if entry.empty || d > entry.distance then (None, false)
    else if entry.hash == h && entry.key == key then (entry.value, true)
    else GetAt(t, key, h, home, k + 1, Inc8(d), stop)
  }

  /** `Get`: the stored value and `true`, or `nil` and `false`. */
  function Get<V>(t: Table<V>, hash: string -> bv32, key: string): (r: (Option<V>, bool))
    requires 0 < |t| && Occupied(t) < |t|
    ensures r.1 ==> exists i :: 0 <= i < |t| && !t[i].empty && t[i].key == key && t[i].value == r.0
    ensures !r.1 ==> r.0 == None
  {
    var h := hash(key);
    var home := Home(h, |t|);
    var stop := StopStep(t, home);
    GetAtSound(t, key, h, home, 0, 0, stop);
    GetAt(t, key, h, home, 0, 0, stop)
  }

  /** What the probe of Get finds is stored in the table; what it misses reads as `nil`. */
  lemma {:induction false} GetAtSound<V>(t: Table<V>, key: string, h: bv32, home: nat, k: nat, d: int8,
                                         stop: nat)
    requires home < |t| && k <= stop < |t| && t[Slot(home, stop, |t|)].empty
    ensures var r := GetAt(t, key, h, home, k, d, stop);
      (r.1 ==> exists i :: 0 <= i < |t| && !t[i].empty && t[i].key == key && t[i].value == r.0)
      && (!r.1 ==> r.0 == None)
    decreases stop - k
  {
    var entry := t[Slot(home, k, |t|)];
    if entry.empty || d > entry.distance {
    } else if entry.hash == h && entry.key == key {
    } else {
      GetAtSound(t, key, h, home, k + 1, Inc8(d), stop);
    }
  }

  // ---------------------------------------------------------------------------------------
  // Delete (custom_map.go:138-186)

  /** The backward-shift loop of Delete (lines 155-172): the slot at step `k` is the gap. While
      the next slot is occupied with a non-zero distance, move it back one slot and decrement
      its distance; then clear the gap. Exactly one occupied slot, holding the gap's key,
      disappears. */
  function ShiftBack<V>(t: Table<V>, home: nat, k: nat, ghost stop: nat): (r: Table<V>)
    requires home < |t| && k < stop < |t| && t[Slot(home, stop, |t|)].empty && !t[Slot(home, k, |t|)].empty
    ensures |r| == |t|
    decreases stop - k
  {
    var pos := Slot(home, k, |t|);
    var next := Slot(home, k + 1, |t|);
    SlotsDistinct(home, k, k + 1, |t|);
    if t[next].empty || t[next].distance == 0 then
      t[pos := Cleared(t[pos])]
    else
      var moved := t[next].(distance := Dec8(t[next].distance));
      SlotsDistinct(home, k + 1, stop, |t|);
      SlotsDistinct(home, k, stop, |t|);
      ShiftBack(t[pos := moved], home, k + 1, stop)
  }

  /** `after` has one occupied slot fewer than `before`, and one copy of `key` fewer. */
  predicate LosesOne<V>(before: Table<V>, after: Table<V>, key: string)
  {
    Occupied(after) == Occupied(before) - 1
    && multiset(KeysOf(after)) == multiset(KeysOf(before)) - multiset{key}
  }

  /** The backward shift empties exactly one slot, and the one key it loses is the gap's. */
  lemma {:induction false} ShiftBackCounts<V>(t: Table<V>, home: nat, k: nat, stop: nat)
    requires home < |t| && k < stop < |t| && t[Slot(home, stop, |t|)].empty && !t[Slot(home, k, |t|)].empty
    ensures LosesOne(t, ShiftBack(t, home, k, stop), t[Slot(home, k, |t|)].key)
    decreases stop - k, 1
  {
    var pos := Slot(home, k, |t|);
    var next := Slot(home, k + 1, |t|);
    SlotsDistinct(home, k, k + 1, |t|);
    if t[next].empty || t[next].distance == 0 {
      assert ShiftBack(t, home, k, stop) == t[pos := Cleared(t[pos])];
      UpdateCounts(t, pos, Cleared(t[pos]));
    } else {
      ShiftBackMoveCounts(t, home, k, stop);
    }
  }

  /** `ShiftBackCounts` when the next entry moves back into the gap. */
  lemma {:induction false} ShiftBackMoveCounts<V>(t: Table<V>, home: nat, k: nat, stop: nat)
    requires home < |t| && k < stop < |t| && t[Slot(home, stop, |t|)].empty && !t[Slot(home, k, |t|)].empty
    requires k + 1 < |t| && var e := t[Slot(home, k + 1, |t|)]; !e.empty && e.distance != 0
    ensures LosesOne(t, ShiftBack(t, home, k, stop), t[Slot(home, k, |t|)].key)
    decreases stop - k, 0
  {
    var pos := Slot(home, k, |t|);
    var next := Slot(home, k + 1, |t|);
    var moved := t[next].(distance := Dec8(t[next].distance));
    SlotsDistinct(home, k, k + 1, |t|);
    SlotsDistinct(home, k + 1, stop, |t|);
    SlotsDistinct(home, k, stop, |t|);
    var r := ShiftBack(t[pos := moved], home, k + 1, stop);
    assert ShiftBack(t, home, k, stop) == r;
    ShiftBackCounts(t[pos := moved], home, k + 1, stop);
    ShiftStep(t, pos, next, r);
  }

  /** The search loop of Delete (lines 143-183) at step `k` with probe distance `d`. Returns the
      new table and whether a slot was deleted. */
  function DeleteAt<V>(t: Table<V>, key: string, h: bv32, home: nat, k: nat, d: int8,
                       ghost stop: nat): (r: (Table<V>, bool))
    requires home < |t| && k <= stop < |t| && t[Slot(home, stop, |t|)].empty
    ensures |r.0| == |t|
    ensures !r.1 ==> r.0 == t
    decreases stop - k
  {
    var entry := t[Slot(home, k, |t|)];
    if entry.empty || d > entry.distance then (t, false)
    else if entry.hash == h && entry.key == key then
      SlotsDistinct(home, k, stop, |t|);
      (ShiftBack(t, home, k, stop), true)
    else DeleteAt(t, key, h, home, k + 1, Inc8(d), stop)
  }

  /** A deleting search empties exactly one slot and loses exactly one copy of `key`. */
  lemma {:induction false} DeleteAtCounts<V>(t: Table<V>, key: string, h: bv32, home: nat, k: nat, d: int8,
                                            stop: nat)
    requires home < |t| && k <= stop < |t| && t[Slot(home, stop, |t|)].empty
    ensures var r := DeleteAt(t, key, h, home, k, d, stop); r.1 ==> LosesOne(t, r.0, key)
    decreases stop - k, 1
  {
    var entry := t[Slot(home, k, |t|)];
    if entry.empty || d > entry.distance {
    } else if entry.hash == h && entry.key == key {
      SlotsDistinct(home, k, stop, |t|);
      assert DeleteAt(t, key, h, home, k, d, stop) == (ShiftBack(t, home, k, stop), true);
      ShiftBackCounts(t, home, k, stop);
    } else {
      DeleteAtPassCounts(t, key, h, home, k, d, stop);
    }
  }

  /** `DeleteAtCounts` when the search passes the slot at step `k`. */
  lemma {:induction false} DeleteAtPassCounts<V>(t: Table<V>, key: string, h: bv32, home: nat, k: nat,
                                                d: int8, stop: nat)
    requires home < |t| && k <= stop < |t| && t[Slot(home, stop, |t|)].empty
    requires var e := t[Slot(home, k, |t|)]; !e.empty && d <= e.distance && !(e.hash == h && e.key == key)
    ensures var r := DeleteAt(t, key, h, home, k, d, stop); r.1 ==> LosesOne(t, r.0, key)
    decreases stop - k, 0
  {
    SlotsDistinct(home, k, stop, |t|);
    assert DeleteAt(t, key, h, home, k, d, stop) == DeleteAt(t, key, h, home, k + 1, Inc8(d), stop);
    DeleteAtCounts(t, key, h, home, k + 1, Inc8(d), stop);
  }

  /** `Delete`: the new table and whether the key was removed. */
  function Delete<V>(t: Table<V>, hash: string -> bv32, key: string): (r: (Table<V>, bool))
    requires 0 < |t| && Occupied(t) < |t|
    ensures |r.0| == |t|
    ensures !r.1 ==> r.0 == t
    ensures r.1 ==> Occupied(r.0) == Occupied(t) - 1
    ensures r.1 ==> multiset(KeysOf(r.0)) == multiset(KeysOf(t)) - multiset{key}
  {
    var h := hash(key);
    var home := Home(h, |t|);
    var stop := StopStep(t, home);
    DeleteAtCounts(t, key, h, home, 0, 0, stop);
    DeleteAt(t, key, h, home, 0, 0, stop)
  }

  // ---------------------------------------------------------------------------------------
  // The table invariant kept by every operation

  /** Every slot's `Distance` is 0 (the value every entry is created with, lines 63 and 69) and
      every occupied slot's `Hash` is the hash of its key. */
  predicate Consistent<V>(t: Table<V>, hash: string -> bv32)
  {
    forall i: nat | i < |t| :: ConsistentAt(t, hash, i)
  }

  /** `Consistent` at slot `i`. */
  predicate ConsistentAt<V>(t: Table<V>, hash: string -> bv32, i: nat)
  {
    i < |t| && t[i].distance == 0 && (!t[i].empty ==> t[i].hash == hash(t[i].key))
  }

  /** What the map keeps of its table between calls: at least 16 slots, never full, consistent. */
  predicate WellFormed<V>(t: Table<V>, hash: string -> bv32)
  {
    |t| >= 16 && Occupied(t) < |t| && Consistent(t, hash)
  }

  // ---------------------------------------------------------------------------------------
  // Basic lemmas

  lemma {:induction false} ConcatCounts<V>(a: Table<V>, b: Table<V>)
    ensures Occupied(a + b) == Occupied(a) + Occupied(b)
    ensures KeysOf(a + b) == KeysOf(a) + KeysOf(b)
    decreases |b|
  {
    if |b| == 0 {
      assert a + b == a;
    } else {
      assert (a + b)[..|a + b| - 1] == a + b[..|b| - 1];
      ConcatCounts(a, b[..|b| - 1]);
    }
  }

  /** Overwriting one slot changes occupancy by that slot only. */
  lemma UpdateOccupied<V>(t: Table<V>, i: nat, x: Entry<V>)
    requires i < |t|
    ensures Occupied(t[i := x]) == Occupied(t) - Weight(t[i]) + Weight(x)
  {
    UpdateCounts(t, i, x);
  }

  /** Overwriting one slot changes occupancy and the multiset of keys by that slot only. */
  lemma UpdateCounts<V>(t: Table<V>, i: nat, x: Entry<V>)
    requires i < |t|
    ensures Occupied(t[i := x]) == Occupied(t) - Weight(t[i]) + Weight(x)
    ensures multiset(KeysOf(t[i := x])) == multiset(KeysOf(t)) - Bag(t[i]) + Bag(x)
  {
    var u := t[i := x];
    SplitCounts(t, i);
    SplitCounts(u, i);
    assert u[..i] == t[..i] && u[i + 1..] == t[i + 1..];
  }

  /** A table's occupancy and keys are those before slot `i`, of slot `i`, and after it. */
  lemma SplitCounts<V>(t: Table<V>, i: nat)
    requires i < |t|
    ensures Occupied(t) == Occupied(t[..i]) + Weight(t[i]) + Occupied(t[i + 1..])
    ensures multiset(KeysOf(t)) == multiset(KeysOf(t[..i])) + Bag(t[i]) + multiset(KeysOf(t[i + 1..]))
  {
    var pre, post := t[..i], t[i + 1..];
    assert t == pre + [t[i]] + post;
    ConcatCounts(pre + [t[i]], post);
    ConcatCounts(pre, [t[i]]);
    assert [t[i]][..0] == [];
  }

  /** One step of the backward shift: moving the occupied slot `next` onto the occupied slot
      `pos`, then removing one occupied slot holding the moved key, removes `pos`'s key. */
  lemma ShiftStep<V>(t: Table<V>, pos: nat, next: nat, r: Table<V>)
    requires pos < |t| && next < |t| && pos != next && !t[pos].empty && !t[next].empty
    requires var t' := t[pos := t[next].(distance := Dec8(t[next].distance))];
      Occupied(r) == Occupied(t') - 1 && multiset(KeysOf(r)) == multiset(KeysOf(t')) - multiset{t'[next].key}
    ensures Occupied(r) == Occupied(t) - 1
    ensures multiset(KeysOf(r)) == multiset(KeysOf(t)) - multiset{t[pos].key}
  {
    var moved := t[next].(distance := Dec8(t[next].distance));
    UpdateCounts(t, pos, moved);
  }

  lemma {:induction false} EmptyOccupied<V>(n: nat)
    ensures Occupied(EmptyTable<V>(n)) == 0 && KeysOf(EmptyTable<V>(n)) == []
  {
    if n > 0 {
      assert EmptyTable<V>(n)[..n - 1] == EmptyTable<V>(n - 1);
      EmptyOccupied<V>(n - 1);
    }
  }

  /** A table with fewer occupied slots than slots has a vacant slot. */
  lemma {:induction false} VacancyExists<V>(t: Table<V>)
    requires Occupied(t) < |t|
    ensures exists j :: 0 <= j < |t| && t[j].empty
  {
    if !t[|t| - 1].empty {
      VacancyExists(t[..|t| - 1]);
      var j :| 0 <= j < |t| - 1 && t[..|t| - 1][j].empty;
      assert t[j].empty;
    }
  }

  /** Distinct steps below `n` visit distinct slots. */
  lemma SlotsDistinct(home: nat, j1: nat, j2: nat, n: nat)
    requires home < n && j1 < n && j2 < n && j1 != j2
    ensures Slot(home, j1, n) != Slot(home, j2, n)
  {
  }

  /** `(pos + 1) & mask` moves from the slot at step `k` to the slot at step `k + 1`. */
  lemma SlotStep(home: nat, k: nat, n: nat)
    requires home < n && k + 1 < n
    ensures (Slot(home, k, n) + 1) % n == Slot(home, k + 1, n)
  {
    var x := Slot(home, k, n) + 1;
    if x < n {
      Bits.ModUnique(x, n, 0, x);
    } else {
      Bits.ModUnique(x, n, 1, 0);
    }
  }
}
