/** The `RobinHoodMap` of custom_map/custom_map.go: a class over its `entries` array, each
    method proved against the table functions of `RobinHoodSpec`, so that the properties proved
    there (and in `RobinHoodProps`) hold of the map's state.

    `fastHash` (FNV-1a over the key's bytes, lines 49-53) is given to the constructor. */
module CustomMap {
  import opened Wrappers
  import opened RobinHoodSpec
  import opened RobinHoodProps
  import Bits

  /** Go's zero `Entry`, as `make` creates it before the slot is marked `Empty`. */
  function ZeroEntry<V>(): Entry<V>
  {
    Entry("", None, 0, 0, false)
  }

  /** `make([]Entry, size)` followed by the loop that marks every slot `Empty` (lines 35-38,
      194-199): an array of `n` vacant slots. */
  method NewVacantArray<V>(n: nat) returns (a: array<Entry<V>>)
    ensures fresh(a) && a[..] == EmptyTable(n)
  {
    a := new Entry<V>[n](_ => ZeroEntry());
    for i := 0 to n
      invariant forall j :: 0 <= j < i ==> a[j] == Vacant()
      invariant forall j :: i <= j < n ==> a[j] == ZeroEntry()
    {
      a[i] := a[i].(empty := true);
    }
    assert a[..] == EmptyTable(n);
  }

  class RobinHoodMap<V> {
    var entries: array<Entry<V>>
    var size: int
    var count: int
    var mask: int
    const fastHash: string -> bv32

    /** The fields agree with each other and the table is well formed: a power-of-two size of
        at least 16, `mask == size - 1`, `count` the number of occupied slots, never full. */
    ghost predicate Valid()
      reads this, entries
    {
      Shape() && size >= 16 && count == Occupied(entries[..]) && WellFormed(entries[..], fastHash)
    }

    /** The array has `size` slots, a power of two, and `mask` selects a slot from a hash. */
    ghost predicate Shape()
      reads this
    {
      entries.Length == size && Bits.IsPowerOfTwo(size) && mask == size - 1
    }

    /** `NewRobinHoodMap` (lines 25-46): the least power of two that is at least `initialSize`,
        raised to 16, with every slot vacant. */
    constructor (initialSize: int, fastHash: string -> bv32)
      ensures Valid() && fresh(entries) && this.fastHash == fastHash
      ensures entries[..] == EmptyTable(size) && count == 0
      ensures size >= initialSize && (size == 16 || size / 2 < initialSize)
    {
      var s := 1;
      while s < initialSize
        invariant s >= 1 && Bits.IsPowerOfTwo(s) && (s == 1 || s / 2 < initialSize)
        decreases initialSize - s
      {
        Bits.DoubleIsPowerOfTwo(s);
        s := s * 2;
      }
      if s < 16 {
        s := 16;
        assert Bits.IsPowerOfTwo(16) by {
          assert Bits.IsPowerOfTwo(2) && Bits.IsPowerOfTwo(4) && Bits.IsPowerOfTwo(8);
        }
      }
      var a := NewVacantArray<V>(s);
      EmptyOccupied<V>(s);
      entries, size, count, mask := a, s, 0, s - 1;
      this.fastHash := fastHash;
    }

    /** `Put` (lines 56-106): resize when more than three quarters full, then run the probe from
        the home slot. The table becomes the one `RobinHoodSpec.Put` gives; the array is replaced
        exactly when the map resizes. */
    method Put(key: string, value: Option<V>)
      requires Valid()
      modifies this, entries
      ensures Valid()
      ensures entries[..] == RobinHoodSpec.Put(old(entries[..]), fastHash, key, value).0
      ensures if NeedsResize(old(entries[..])) then fresh(entries) && size == 2 * old(size)
              else entries == old(entries) && size == old(size)
      decreases if 4 * count > 3 * size then 3 else 0
    {
      ghost var t := entries[..];
      // float64(count)/float64(size) > 0.75, exactly
      if 4 * count > 3 * size {
        Resize();
      }
      assert entries[..] == if NeedsResize(t) then RobinHoodSpec.Resize(t, fastHash) else t;
      PutWellFormed(t, fastHash, key, value);
      Probe(key, value);
    }

    /** The probe of Put (lines 61-105): from the home slot, write the entry into the first
        `Empty` slot or update the slot holding the key, swapping the carried entry with any
        occupied slot whose `Distance` is below the probe distance. */
    method Probe(key: string, value: Option<V>)
      requires Shape() && count == Occupied(entries[..]) < size
      modifies this`count, entries
      ensures entries[..] == RobinHoodSpec.Insert(old(entries[..]), key, fastHash(key), value).0
      ensures count == Occupied(entries[..])
    {
      ghost var t := entries[..];
      var h := fastHash(key);
      var pos := Bits.MaskOf(h as nat, mask, size);
      var distance: int8 := 0;
      var entry := Entry(key, value, h, 0, false);
      ghost var home := pos;
      assert home == Home(h, size);
      ghost var stop := StopStep(t, home);
      ghost var k: nat := 0;
      ghost var target := RobinHoodSpec.Insert(t, key, h, value);
      var a := entries;
      while true
        invariant Shape() && a == entries && count == Occupied(t)
        invariant InsertProbe(a[..], key, h, value, home, k, entry, distance, stop, target)
        invariant pos == Slot(home, k, size)
        decreases stop - k
      {
        var done, inserted;
        done, inserted, entry, distance, pos := ProbeSlot(a, key, value, h, pos, entry, distance, home, k, stop, target);
        if done {
          if inserted {
            count := count + 1;
          }
          return;
        }
        k := k + 1;
      }
    }

    /** One pass of Put's probe loop (lines 74-94) at slot `pos`: fill an `Empty` slot, update the
        slot holding the key, or swap the carried entry in when its distance is the greater. The
        probe is then over, with the table `target` describes, or goes on one step later carrying
        `carry` at `d`, the distance before Put's `distance++`. */
    method ProbeSlot(a: array<Entry<V>>, key: string, value: Option<V>, h: bv32, pos: int,
                     entry: Entry<V>, distance: int8, ghost home: nat, ghost k: nat, ghost stop: nat,
                     ghost target: (Table<V>, bool))
      returns (done: bool, inserted: bool, carry: Entry<V>, d: int8, next: int)
      requires Shape() && a == entries
      requires InsertProbe(a[..], key, h, value, home, k, entry, distance, stop, target)
      requires pos == Slot(home, k, a.Length)
      modifies a
      ensures done ==> a[..] == target.0 && inserted == target.1
      ensures !done ==> k + 1 < a.Length && next == Slot(home, k + 1, a.Length) &&
                        InsertProbe(a[..], key, h, value, home, k + 1, carry, d, stop, target)
    {
      ghost var cur := a[..];
      var existing := a[pos];
      if existing.empty {
        InsertProbeEmpty(cur, key, h, value, home, k, entry, distance, stop, target);
        a[pos] := entry;
        return true, true, entry, distance, pos;
      }
      if existing.hash == h && existing.key == key {
        InsertProbeMatch(cur, key, h, value, home, k, entry, distance, stop, target);
        a[pos] := existing.(value := value);
        return true, false, entry, distance, pos;
      }
      if distance > existing.distance {
        InsertProbeSwap(cur, key, h, value, home, k, entry, distance, stop, target);
        a[pos] := entry;
        carry, d := existing, a[pos].distance;
      } else {
        InsertProbePass(cur, key, h, value, home, k, entry, distance, stop, target);
        carry, d := entry, distance;
      }
      next := NextSlot(pos, home, k);
      return false, false, carry, Inc8(d), next;
    }

    /** `(pos + 1) & mask`: the next slot of a probe, wrapping from the last slot to slot 0. */
    method NextSlot(pos: int, ghost home: nat, ghost k: nat) returns (next: int)
      requires Shape() && home < size && k + 1 < size && pos == Slot(home, k, size)
      ensures next == Slot(home, k + 1, size)
    {
      SlotStep(home, k, size);
      next := Bits.MaskOf(pos + 1, mask, size);
    }

    /** `resize` (lines 189-207): double the size, start from vacant slots and a zero count,
        and re-Put every occupied slot of the old array in slot order. The re-Puts never resize
        again, since the old count is below the old size. */
    method Resize()
      requires Valid()
      modifies this
      ensures Valid() && fresh(entries)
      ensures entries[..] == RobinHoodSpec.Resize(old(entries[..]), fastHash)
      ensures size == 2 * old(size)
      decreases 2
    {
      ghost var t := entries[..];
      var oldEntries := entries;
      Bits.DoubleIsPowerOfTwo(size);
      size := size * 2;
      mask := size - 1;
      entries := NewVacantArray<V>(size);
      count := 0;
      EmptyOccupied<V>(size);
      assert Consistent(entries[..], fastHash) by {
        forall j: nat | j < size
          ensures ConsistentAt(entries[..], fastHash, j)
        {
        }
      }
      Reinsert(oldEntries, t);
    }

    /** The loop of `resize` (lines 200-206): every occupied slot of the old array, in slot
        order, put into the new, empty one. */
    method Reinsert(oldEntries: array<Entry<V>>, ghost t: Table<V>)
      requires Valid() && oldEntries != entries && oldEntries[..] == t && 0 < |t| && Occupied(t) < |t|
      requires size == 2 * |t| && entries[..] == EmptyTable(size)
      modifies this, entries
      ensures Valid() && entries == old(entries) && size == old(size)
      ensures entries[..] == RobinHoodSpec.Resize(t, fastHash)
      decreases 1
    {
      ghost var empty := EmptyTable<V>(size);
      EmptyOccupied<V>(size);
      for j := 0 to oldEntries.Length
        invariant Valid() && entries == old(entries) && size == old(size) && oldEntries[..] == t
        invariant entries[..] == Rehash(t[..j], empty, fastHash)
        invariant count <= Occupied(t[..j])
      {
        RehashStep(t, j, empty, fastHash);
        if !oldEntries[j].empty {
          assert !NeedsResize(entries[..]);
          Put(oldEntries[j].key, oldEntries[j].value);
        }
      }
      assert t[..oldEntries.Length] == t;
    }

    /** `Get` (lines 109-135): the value stored under `key` and `true`, or `nil` and `false`;
        because every `Distance` is 0, a key is found exactly when it sits in its home slot. */
    method Get(key: string) returns (value: Option<V>, found: bool)
      requires Valid()
      ensures (value, found) == RobinHoodSpec.Get(entries[..], fastHash, key)
    {
      ghost var t := entries[..];
      var h := fastHash(key);
      var pos := Bits.MaskOf(h as nat, mask, size);
      var distance: int8 := 0;
      ghost var home := pos;
      assert home == Home(h, size);
      ghost var stop := StopStep(t, home);
      ghost var k: nat := 0;
      ghost var target := GetAt(t, key, h, home, 0, 0, stop);
      assert target == RobinHoodSpec.Get(t, fastHash, key);
      while true
        invariant home < size && k <= stop < size && pos == Slot(home, k, size)
        invariant GetAt(t, key, h, home, k, distance, stop) == target
        decreases stop - k
      {
        var entry := entries[pos];
        if entry.empty || distance > entry.distance {
          return None, false;
        }
        if entry.hash == h && entry.key == key {
          return entry.value, true;
        }
        GetAtPass(t, key, h, home, k, distance, stop);
        pos := NextSlot(pos, home, k);
        distance := Inc8(distance);
        k := k + 1;
      }
    }

    /** `Delete` (lines 138-186): remove `key` and report whether it was there; the table
        becomes the one `RobinHoodSpec.Delete` gives, so only the home slot can be cleared. */
    method Delete(key: string) returns (deleted: bool)
      requires Valid()
      modifies this, entries
      ensures Valid() && entries == old(entries) && size == old(size)
      ensures (entries[..], deleted) == RobinHoodSpec.Delete(old(entries[..]), fastHash, key)
      ensures count == old(count) - (if deleted then 1 else 0)
    {
      ghost var t := entries[..];
      DeleteWellFormed(t, fastHash, key);
      var h := fastHash(key);
      var pos := Bits.MaskOf(h as nat, mask, size);
      var distance: int8 := 0;
      ghost var home := pos;
      assert home == Home(h, size);
      ghost var stop := StopStep(t, home);
      ghost var k: nat := 0;
      ghost var target := DeleteAt(t, key, h, home, 0, 0, stop);
      assert target == RobinHoodSpec.Delete(t, fastHash, key);
      while true
        invariant Shape() && entries == old(entries) && size == old(size) && count == old(count)
        invariant entries[..] == t && DeleteProbe(t, key, h, home, k, distance, stop, target)
        invariant pos == Slot(home, k, size)
        decreases stop - k
      {
        var done;
        done, deleted, pos := DeleteSlot(key, h, pos, distance, home, k, stop, target);
        if done {
          return;
        }
        distance := Inc8(distance);
        k := k + 1;
      }
    }

    /** One slot of Delete's search (lines 144-182): stop at an `Empty` slot or one whose
        `Distance` is below the probe distance, delete the slot holding the key, or go on to the
        next slot. */
    method DeleteSlot(key: string, h: bv32, pos: int, distance: int8, ghost home: nat, ghost k: nat,
                      ghost stop: nat, ghost target: (Table<V>, bool))
      returns (done: bool, deleted: bool, next: int)
      requires Shape() && DeleteProbe(entries[..], key, h, home, k, distance, stop, target)
      requires pos == Slot(home, k, size)
      modifies this`count, entries
      ensures done ==> entries[..] == target.0 && deleted == target.1
      ensures done ==> count == old(count) - (if deleted then 1 else 0)
      ensures !done ==> k < stop && entries[..] == old(entries[..]) && count == old(count)
      ensures !done ==> next == Slot(home, k + 1, size)
      ensures !done ==> DeleteProbe(entries[..], key, h, home, k + 1, Inc8(distance), stop, target)
    {
      var entry := entries[pos];
      if entry.empty || distance > entry.distance {
        return true, false, pos;
      }
      if entry.hash == h && entry.key == key {
        SlotsDistinct(home, k, stop, size);
        assert target == (ShiftBack(entries[..], home, k, stop), true);
        count := count - 1;
        ShiftBackLoop(home, pos, k, stop);
        return true, true, pos;
      }
      DeleteAtPass(entries[..], key, h, home, k, distance, stop);
      next := NextSlot(pos, home, k);
      return false, false, next;
    }

    /** The backward shift of Delete (lines 155-172) from the gap at step `k0`: move each
        following entry whose `Distance` is non-zero back one slot, then clear the last gap. */
    method ShiftBackLoop(ghost home: nat, pos0: int, ghost k0: nat, ghost stop: nat)
      requires entries.Length == size && Bits.IsPowerOfTwo(size) && mask == size - 1
      requires home < size && k0 < stop < size && pos0 == Slot(home, k0, size)
      requires entries[Slot(home, stop, size)].empty && !entries[pos0].empty
      modifies entries
      ensures entries[..] == ShiftBack(old(entries[..]), home, k0, stop)
    {
      ghost var target := ShiftBack(entries[..], home, k0, stop);
      var pos := pos0;
      ghost var k := k0;
      while true
        invariant k < stop && pos == Slot(home, k, size)
        invariant entries[Slot(home, stop, size)].empty && !entries[pos].empty
        invariant ShiftBack(entries[..], home, k, stop) == target
        decreases stop - k
      {
        SlotStep(home, k, size);
        var nextPos := Bits.MaskOf(pos + 1, mask, size);
        var nextEntry := entries[nextPos];
        if nextEntry.empty || nextEntry.distance == 0 {
          ShiftBackLast(entries[..], home, k, stop);
          break;
        }
        ghost var before := entries[..];
        ShiftBackMove(before, home, k, stop);
        entries[pos] := nextEntry.(distance := Dec8(nextEntry.distance));
        assert entries[..] == before[pos := nextEntry.(distance := Dec8(nextEntry.distance))];
        pos := nextPos;
        k := k + 1;
      }
      entries[pos] := entries[pos].(empty := true, key := "", value := None);
    }

    /** `Size` (lines 210-212): the number of occupied slots, which is the number of keys
        `Keys` returns. */
    method Size() returns (n: int)
      requires Valid()
      ensures n == Occupied(entries[..]) == |KeysOf(entries[..])|
    {
      n := count;
    }

    /** `Keys` (lines 245-253): the keys of the occupied slots in slot order, `count` of them. */
    method Keys() returns (keys: seq<string>)
      requires Valid()
      ensures keys == KeysOf(entries[..]) && |keys| == count
    {
      keys := [];
      for i := 0 to entries.Length
        invariant keys == KeysOf(entries[..i])
      {
        assert entries[..i + 1][..i] == entries[..i];
        if !entries[i].empty {
          keys := keys + [entries[i].key];
        }
      }
      assert entries[..entries.Length] == entries[..];
    }

    /** `Values` (lines 256-264): the values of the occupied slots in slot order. */
    method Values() returns (values: seq<Option<V>>)
      requires Valid()
      ensures values == ValuesOf(entries[..]) && |values| == count
    {
      values := [];
      for i := 0 to entries.Length
        invariant values == ValuesOf(entries[..i])
      {
        assert entries[..i + 1][..i] == entries[..i];
        if !entries[i].empty {
          values := values + [entries[i].value];
        }
      }
      assert entries[..entries.Length] == entries[..];
    }

    /** `Entries` (lines 272-283): the key-value pairs of the occupied slots in slot order, the
        i-th pair made of the i-th key and the i-th value. */
    method Entries() returns (pairs: seq<KeyValuePair<V>>)
      requires Valid()
      ensures pairs == PairsOf(entries[..]) && |pairs| == count
      ensures forall i :: 0 <= i < |pairs| ==> pairs[i] == KeyValuePair(KeysOf(entries[..])[i], ValuesOf(entries[..])[i])
    {
      pairs := [];
      for i := 0 to entries.Length
        invariant pairs == PairsOf(entries[..i])
      {
        assert entries[..i + 1][..i] == entries[..i];
        if !entries[i].empty {
          pairs := pairs + [KeyValuePair(entries[i].key, entries[i].value)];
        }
      }
      assert entries[..entries.Length] == entries[..];
      EnumeratorsAligned(entries[..]);
    }

    /** `Iterator` (lines 311-313): an iterator over this map, before its first slot. */
    method Iterator() returns (it: RobinHoodIterator<V>)
      ensures fresh(it) && it.rhm == this && it.index == -1
    {
      it := new RobinHoodIterator(this);
    }
  }

  /** `RobinHoodIterator` (lines 306-332): walks the map's slots in order, stopping at the
      occupied ones. */
  class RobinHoodIterator<V> {
    const rhm: RobinHoodMap<V>
    var index: int

    constructor (rhm: RobinHoodMap<V>)
      ensures this.rhm == rhm && index == -1
    {
      this.rhm := rhm;
      index := -1;
    }

    /** `Next` (lines 315-324): advance to the next occupied slot and report whether there was
        one; slots passed over are vacant. Once past the end, the index keeps growing by one. */
    method Next() returns (more: bool)
      requires index >= -1
      modifies this
      ensures old(index) < index && more == (index < rhm.entries.Length)
      ensures more ==> !rhm.entries[index].empty
      ensures !more ==> index == if old(index) + 1 < rhm.entries.Length then rhm.entries.Length else old(index) + 1
      ensures forall j :: old(index) < j < index && j < rhm.entries.Length ==> rhm.entries[j].empty
    {
      index := index + 1;
      while index < rhm.entries.Length
        invariant old(index) < index
        invariant old(index) + 1 < rhm.entries.Length ==> index <= rhm.entries.Length
        invariant index == old(index) + 1 || index <= rhm.entries.Length
        invariant forall j :: old(index) < j < index && j < rhm.entries.Length ==> rhm.entries[j].empty
        decreases rhm.entries.Length - index
      {
        if !rhm.entries[index].empty {
          return true;
        }
        index := index + 1;
      }
      return false;
    }

    /** `Key` (lines 326-328): the key at the current slot; for an occupied slot, the key that
        `Keys` lists at the position of that slot among the occupied ones. */
    method Key() returns (key: string)
      requires 0 <= index < rhm.entries.Length
      ensures key == rhm.entries[index].key
      ensures !rhm.entries[index].empty ==>
        var t := rhm.entries[..]; Occupied(t[..index]) < |KeysOf(t)| && key == KeysOf(t)[Occupied(t[..index])]
    {
      key := rhm.entries[index].key;
      if !rhm.entries[index].empty {
        EnumeratorsInSlotOrder(rhm.entries[..], index);
      }
    }

    /** `Value` (lines 330-332): the value at the current slot; for an occupied slot, the value
        that `Values` lists at the position of that slot among the occupied ones. */
    method Value() returns (value: Option<V>)
      requires 0 <= index < rhm.entries.Length
      ensures value == rhm.entries[index].value
      ensures !rhm.entries[index].empty ==>
        var t := rhm.entries[..]; Occupied(t[..index]) < |ValuesOf(t)| && value == ValuesOf(t)[Occupied(t[..index])]
    {
      value := rhm.entries[index].value;
      if !rhm.entries[index].empty {
        EnumeratorsInSlotOrder(rhm.entries[..], index);
      }
    }
  }
}
