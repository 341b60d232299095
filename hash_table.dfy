/**
 The open-addressing string-to-string table of src/hash_table.c: an array of
 slots probed by double hashing, deletion by tombstones, and resizing by
 rebuilding into a scratch table whose array the original then adopts.

 Every probe loop of the source runs until it meets an empty slot (or, for
 insert and search, the key). Here each loop is bounded by `size` attempts;
 `Hashing.ProbeRepeats` shows that the unbounded loop reaches no slot the
 first `size` attempts miss, so a bounded loop that ends without stopping is
 exactly a source loop that never ends (`Probing.NeverStops`,
 `Probing.NeverEmpty`). Search, Insert and Delete report that case with
 `ok == false`. A rebuild that meets it reports `false` with a ghost `Jam`:
 the slots, free of tombstones, of a valid table of at least the requested
 base size, holding part of the entries, where the probe of one further key
 stops nowhere, so the source's reinsertion loop never ends (`Jams`,
 `JamCause`). What the table then holds is stated too, though the source
 never gets that far: an insertion leaves the entries as they were (its
 table may already have grown), and a deletion whose probe finds the key
 but never meets an empty slot has already turned the entry into a
 tombstone.
 */
module HashTable {

  import opened Primes
  import opened Hashing
  import opened Probing
  import Arith

  /** `HT_INITIAL_BASE_SIZE`: the base size of a new table and the floor
      below which a resize is refused. */
  const MinBase: nat := 50

  /** What a failed rebuild ran into: the slots of a valid table of base
      size `base`, holding part `held` of the entries but not `key`, in
      which the probe for `key` stops nowhere. Reinserting `key` there never
      ends in the source. */
  datatype Jam = Jam(slots: seq<Slot>, held: map<string, string>, key: string, base: nat)

  /** `j` is a jam met while placing entries with keys `keys` into slots,
      free of tombstones, of base size `floor` or above. */
  ghost predicate Jams(j: Jam, keys: set<string>, floor: nat)
  {
    |j.slots| > 0 && j.base >= floor && |j.slots| == NextPrime(j.base)
    && Stored(j.slots, j.held) && NoTombstones(j.slots)
    && j.key in keys && j.held.Keys <= keys - {j.key}
    && Stop(j.slots, j.key, 0).None?
  }

  /** Why a rebuild can jam. The probe for the jammed key first meets
      another entry, so at least two keys are being placed. And either the
      key's step is a multiple of the slot count, so its probe never leaves
      its first slot, or the probe passed every slot, so there are more keys
      than slots in a table of the requested base size. */
  lemma JamCause(j: Jam, keys: set<string>, floor: nat)
    requires Jams(j, keys, floor)
    ensures |keys| >= 2
    ensures Hash(j.key, HtPrime2, |j.slots|) + 1 == |j.slots| || |keys| > NextPrime(floor)
  {
    var first := GetHash(j.key, |j.slots|, 0);
    assert !Halts(j.slots, j.key, 0);
    assert EntryAt(j.slots, first);
    Arith.SubsetCard({j.slots[first].key, j.key}, keys);
    if Hash(j.key, HtPrime2, |j.slots|) + 1 != |j.slots| {
      StuckMeansFull(j.slots, j.held, j.key);
      Arith.SubsetCard(j.held.Keys + {j.key}, keys);
      NextPrimeMonotone(floor, j.base);
    }
  }

  class Table {
    /** Number of slots: the smallest prime at or above `baseSize`. */
    var size: nat
    var baseSize: nat
    /** Live entries; a C `int`, so the unguarded decrement can drive it below 0. */
    var count: int
    var items: array<Slot>
    /** The key/value map the table represents. */
    ghost var contents: map<string, string>

    /** Everything the table keeps true except the two facts about `count`. */
    ghost predicate Layout()
      reads this, items
    {
      items.Length == size && baseSize >= MinBase && size == NextPrime(baseSize)
      && Stored(items[..], contents)
    }

    ghost predicate Valid()
      reads this, items
    {
      Layout() && Represents(items[..], contents, count)
    }

    /** `ht_new_sized`: all slots empty, `size` derived from the requested
        base size (the source reads the still-unset `size` there instead). */
    constructor Sized(base: nat)
      requires base >= MinBase
      ensures Valid() && fresh(items)
      ensures baseSize == base && contents == map[] && count == 0
      ensures forall j :: 0 <= j < items.Length ==> items[j] == Empty
    {
      var n := NextPrime(base);
      baseSize := base;
      size := n;
      count := 0;
      items := new Slot[n](_ => Empty);
      contents := map[];
      new;
      OccupancyAllEmpty(items[..], items.Length);
    }

    /** `ht_new`: an empty table of the initial base size. */
    static method New() returns (t: Table)
      ensures fresh(t) && fresh(t.items) && t.Valid()
      ensures t.baseSize == MinBase && t.contents == map[] && t.count == 0
      ensures forall j :: 0 <= j < t.items.Length ==> t.items[j] == Empty
    {
      t := new Table.Sized(MinBase);
    }

    /** `ht_search`: never changes the table; finds exactly the stored value.
        `ok` is false when the probe never stops, where the source's loop
        does not end. */
    method Search(key: string) returns (r: Option<string>, ok: bool)
      requires Valid()
      ensures ok == Where(items[..], key).Some?
      ensures key in contents ==> ok
      ensures r == if key in contents then Some(contents[key]) else None
    {
      ghost var s := items[..];
      LookupAgrees(s, contents, key);
      var attempt := 0;
      while attempt < size
        invariant 0 <= attempt <= size
        invariant forall u :: 0 <= u < attempt ==> !Halts(s, key, u)
      {
        var index := GetHash(key, size, attempt);
        var slot := items[index];
        assert s[index] == slot;
        if slot.Empty? || (slot.Occupied? && slot.key == key) {
          StopAt(s, key, attempt);
          return if slot.Occupied? then Some(slot.value) else None, true;
        }
        attempt := attempt + 1;
      }
      return None, false;
    }

    /** The probing part of `ht_insert`: overwrite the key's own entry or
        fill the first empty slot, whichever its probe meets first. */
    method Put(key: string, value: string) returns (ok: bool)
      requires Valid()
      modifies items, this`count, this`contents
      ensures Valid()
      ensures ok == Where(old(items[..]), key).Some?
      ensures key in old(contents) ==> ok
      ensures ok ==> items[..] == old(items[..])[Where(old(items[..]), key).value := Occupied(key, value)]
      ensures !ok ==> items[..] == old(items[..])
      ensures ok ==> contents == old(contents)[key := value]
      ensures !ok ==> contents == old(contents)
      ensures count == old(count) + (if ok && key !in old(contents) then 1 else 0)
    {
      ghost var s := items[..];
      var attempt := 0;
      var index := GetHash(key, size, 0);
      var slot := items[index];
      while !(slot.Empty? || (slot.Occupied? && slot.key == key))
        invariant attempt < size && index == GetHash(key, size, attempt) && slot == s[index]
        invariant forall u :: 0 <= u < attempt ==> !Halts(s, key, u)
        decreases size - attempt
      {
        attempt := attempt + 1;
        if attempt == size {
          LookupAgrees(s, contents, key);
          return false;
        }
        index := GetHash(key, size, attempt);
        slot := items[index];
      }
      StopAt(s, key, attempt);
      PlaceKeeps(s, contents, count, key, value);
      items[index] := Occupied(key, value);
      assert items[..] == s[index := Occupied(key, value)];
      if slot.Empty? {
        count := count + 1;
      }
      contents := contents[key := value];
      return true;
    }

    /** The probing part of `ht_delete`: walk the probe sequence up to the
        first empty slot, turning every entry of `key` into a tombstone.
        `ended` is false when no empty slot is met, where the source's loop
        does not end. `count` is left to the caller. */
    method Unlink(key: string) returns (found: bool, ended: bool)
      requires Valid()
      modifies items, this`contents
      ensures Layout()
      ensures found == (key in old(contents))
      ensures ended == MeetsEmpty(old(items[..]), key) == MeetsEmpty(items[..], key)
      ensures contents == old(contents) - {key}
      ensures found ==> Where(old(items[..]), key).Some?
      ensures items[..] == if found then old(items[..])[Where(old(items[..]), key).value := Tombstone] else old(items[..])
      ensures Occupancy(items[..]) == count - (if found then 1 else 0)
    {
      ghost var s, m := items[..], contents;
      OnlySlot(s, m, key);
      if key in m {
        RemoveKeeps(s, m, count, key);
        MeetsEmptyKept(s, Where(s, key).value, Tombstone, key);
      } else {
        assert m - {key} == m;
      }
      contents := m - {key};
      found, ended := Sweep(items, key);
    }

    /** `ht_delete`'s probing with the count decremented only when an entry
        was actually removed. */
    method Remove(key: string) returns (ended: bool)
      requires Valid()
      modifies items, this`count, this`contents
      ensures Valid()
      ensures ended == MeetsEmpty(old(items[..]), key) == MeetsEmpty(items[..], key)
      ensures contents == old(contents) - {key}
      ensures key in old(contents) ==> Where(old(items[..]), key).Some?
      ensures items[..] == if key in old(contents) then old(items[..])[Where(old(items[..]), key).value := Tombstone] else old(items[..])
      ensures count == old(count) - (if key in old(contents) then 1 else 0)
    {
      var found;
      found, ended := Unlink(key);
      if found {
        count := count - 1;
      }
    }

    /** `ht_resize`: below the floor nothing happens; otherwise every live
        entry is reinserted into a fresh table of the requested base size,
        whose fields this table then adopts. */
    method Resize(newBase: nat) returns (ok: bool, ghost jam: Jam)
      requires Valid()
      modifies this
      decreases count, 2
      ensures Valid() && contents == old(contents)
      ensures newBase < MinBase ==> ok
      ensures newBase < MinBase || !ok ==> unchanged(this)
      ensures newBase >= MinBase && ok ==> baseSize >= newBase && fresh(items) && NoTombstones(items[..])
      ensures newBase >= MinBase && !ok ==> Jams(jam, contents.Keys, newBase)
      ensures |contents| < 2 ==> ok
      ensures newBase >= MinBase && !ok ==>
        |jam.slots| > 0 && (Hash(jam.key, HtPrime2, |jam.slots|) + 1 == |jam.slots| || |contents| > NextPrime(newBase))
    {
      jam := Jam([], map[], [], 0);
      if newBase < MinBase {
        return true, jam;
      }
      var scratch;
      scratch, ok, jam := Rebuild(items, contents, newBase);
      if ok {
        Adopt(scratch);
      } else {
        JamCause(jam, contents.Keys, newBase);
      }
    }

    /** The loop of `ht_resize`: a new table of the requested base size
        holding every live entry, reinserted in slot order. */
    static method Rebuild(slots: array<Slot>, ghost m: map<string, string>, newBase: nat) returns (scratch: Table, ok: bool, ghost jam: Jam)
      requires slots.Length > 0 && Stored(slots[..], m) && newBase >= MinBase
      decreases |m|, 1
      ensures fresh(scratch) && fresh(scratch.items)
      ensures scratch.Valid() && scratch.baseSize >= newBase && NoTombstones(scratch.items[..])
      ensures ok ==> scratch.contents == m
      ensures !ok ==> Jams(jam, m.Keys, newBase)
    {
      ghost var s := slots[..];
      jam := Jam([], map[], [], 0);
      scratch := new Table.Sized(newBase);
      var i := 0;
      while i < slots.Length
        invariant 0 <= i <= slots.Length
        invariant fresh(scratch) && fresh(scratch.items)
        invariant scratch.Valid() && scratch.baseSize >= newBase && NoTombstones(scratch.items[..])
        invariant scratch.contents == CopiedBelow(s, m, i)
      {
        var slot := slots[i];
        if slot.Occupied? {
          var placed;
          placed, jam := scratch.Transfer(slot, s, m, i);
          if !placed {
            return scratch, false, jam;
          }
        } else {
          CopyStep(s, m, i);
        }
        i := i + 1;
      }
      CopiedAll(s, m);
      return scratch, true, jam;
    }

    /** One step of the loop of `ht_resize`: the entry in slot `i` of the old
        slots `s` is inserted into this (scratch) table. */
    method Transfer(slot: Slot, ghost s: seq<Slot>, ghost m: map<string, string>, ghost i: nat) returns (ok: bool, ghost jam: Jam)
      requires Valid() && slot.Occupied? && NoTombstones(items[..])
      requires i < |s| && s[i] == slot && Stored(s, m) && contents == CopiedBelow(s, m, i)
      modifies this, items
      decreases |m|, 0
      ensures Valid() && baseSize >= old(baseSize) && NoTombstones(items[..])
      ensures items == old(items) || fresh(items)
      ensures ok ==> contents == CopiedBelow(s, m, i + 1)
      ensures !ok ==> Jams(jam, m.Keys, old(baseSize))
    {
      CopyStep(s, m, i);
      Arith.SubsetCard(contents.Keys, m.Keys - {slot.key});
      ok, jam := Insert(slot.key, slot.value);
    }

    /** The end of `ht_resize`: this table takes over the rebuilt table's
        base size, count, size and slot array. */
    method Adopt(scratch: Table)
      requires scratch.Valid() && scratch != this
      modifies this
      ensures Valid()
      ensures baseSize == scratch.baseSize && count == scratch.count && size == scratch.size
      ensures items == scratch.items && contents == scratch.contents
    {
      baseSize, count, size, items, contents := scratch.baseSize, scratch.count, scratch.size, scratch.items, scratch.contents;
    }

    /** `ht_resize_up`: rebuild at twice the base size. */
    method ResizeUp() returns (ok: bool, ghost jam: Jam)
      requires Valid()
      modifies this
      decreases count, 3
      ensures Valid() && contents == old(contents)
      ensures ok ==> baseSize >= 2 * old(baseSize) && fresh(items) && NoTombstones(items[..])
      ensures !ok ==> unchanged(this) && Jams(jam, contents.Keys, 2 * old(baseSize))
      ensures !ok ==> |jam.slots| > 0 && Hash(jam.key, HtPrime2, |jam.slots|) + 1 == |jam.slots|
    {
      OccupancyAtMost(items[..], size);
      NextPrimeMonotone(baseSize, baseSize * 2);
      ok, jam := Resize(baseSize * 2);
    }

    /** `ht_resize_down`: rebuild at half the base size, unless that falls
        below the floor. */
    method ResizeDown() returns (ok: bool, ghost jam: Jam)
      requires Valid()
      modifies this
      ensures Valid() && contents == old(contents)
      ensures old(baseSize) / 2 < MinBase ==> ok
      ensures old(baseSize) / 2 < MinBase || !ok ==> unchanged(this)
      ensures old(baseSize) / 2 >= MinBase && ok ==> baseSize >= old(baseSize) / 2 && fresh(items)
      ensures !ok ==> Jams(jam, contents.Keys, old(baseSize) / 2)
    {
      ok, jam := Resize(baseSize / 2);
    }

    /** `ht_insert`: grow first when the load is above 70 percent, then put. */
    method Insert(key: string, value: string) returns (ok: bool, ghost jam: Jam)
      requires Valid()
      modifies this, items
      decreases count, 4
      ensures Valid()
      ensures ok ==> contents == old(contents)[key := value]
      ensures !ok ==> contents == old(contents)
      ensures items == old(items) || fresh(items)
      ensures baseSize >= old(baseSize)
      ensures old(count) * 100 / old(size) <= 70 ==>
        baseSize == old(baseSize) && items == old(items) && ok == Where(old(items[..]), key).Some?
      ensures old(count) * 100 / old(size) <= 70 && ok ==>
        items[..] == old(items[..])[Where(old(items[..]), key).value := Occupied(key, value)]
      ensures old(count) * 100 / old(size) > 70 && ok ==> baseSize >= 2 * old(baseSize)
      ensures old(count) * 100 / old(size) > 70 && !ok && baseSize > old(baseSize) ==> Where(items[..], key).None?
      ensures NoTombstones(old(items[..])) ==> NoTombstones(items[..])
      ensures !ok && old(count) * 100 / old(size) > 70 ==> Jams(jam, old(contents).Keys + {key}, 2 * old(baseSize))
      ensures !ok && old(count) * 100 / old(size) > 70 && baseSize == old(baseSize) ==>
        |jam.slots| > 0 && Hash(jam.key, HtPrime2, |jam.slots|) + 1 == |jam.slots|
      ensures !ok && NoTombstones(old(items[..])) ==> Jams(jam, old(contents).Keys + {key}, old(baseSize))
    {
      jam := Jam([], map[], [], 0);
      var load := count * 100 / size;
      if load > 70 {
        var grown;
        grown, jam := ResizeUp();
        if !grown {
          return false, jam;
        }
      }
      ghost var s := items[..];
      ok := Put(key, value);
      if ok {
        NoTombstonesPlace(s, Where(s, key).value, Occupied(key, value));
      } else {
        jam := Jam(items[..], contents, key, baseSize);
      }
    }

    /** `ht_delete`: shrink first when the load is below 10 percent, then
        remove. `ok` is false when the shrink's rebuild fails or when the
        probe never meets an empty slot; in the second case the entry has
        already been turned into a tombstone. */
    method Delete(key: string) returns (ok: bool, ghost jam: Jam)
      requires Valid()
      modifies this, items
      ensures Valid()
      ensures items == old(items) || fresh(items)
      ensures ok ==> contents == old(contents) - {key} && MeetsEmpty(items[..], key)
      ensures !ok ==>
        (contents == old(contents) && old(count) * 100 / old(size) < 10 && old(baseSize) / 2 >= MinBase
         && Jams(jam, old(contents).Keys, old(baseSize) / 2))
        || (contents == old(contents) - {key} && !MeetsEmpty(items[..], key))
      ensures old(count) * 100 / old(size) < 10 && old(baseSize) / 2 >= MinBase && ok ==>
        fresh(items) && baseSize >= old(baseSize) / 2
      ensures old(count) * 100 / old(size) >= 10 || old(baseSize) / 2 < MinBase ==>
        baseSize == old(baseSize) && items == old(items) && contents == old(contents) - {key}
        && ok == MeetsEmpty(old(items[..]), key)
      ensures old(count) * 100 / old(size) >= 10 || old(baseSize) / 2 < MinBase ==>
        if key in old(contents) then
          Where(old(items[..]), key).Some? && items[..] == old(items[..])[Where(old(items[..]), key).value := Tombstone]
        else items[..] == old(items[..])
    {
      jam := Jam([], map[], [], 0);
      var load := count * 100 / size;
      if load < 10 {
        var shrunk;
        shrunk, jam := ResizeDown();
        if !shrunk {
          return false, jam;
        }
      }
      ok := Remove(key);
    }

    /** `ht_delete` exactly as written: once the probe loop ends, the count
        is decremented whether or not an entry was removed. */
    method DeleteAsWritten(key: string) returns (ok: bool, ghost jam: Jam)
      requires Valid()
      modifies this, items
      ensures Layout()
      ensures ok ==> contents == old(contents) - {key} && count == |old(contents)| - 1
      ensures ok ==> Occupancy(items[..]) == |contents|
      ensures !ok ==>
        (old(count) * 100 / old(size) < 10 && old(baseSize) / 2 >= MinBase && Jams(jam, old(contents).Keys, old(baseSize) / 2))
        || !MeetsEmpty(items[..], key)
      ensures old(count) * 100 / old(size) < 10 && old(baseSize) / 2 >= MinBase && ok ==>
        fresh(items) && baseSize >= old(baseSize) / 2
      ensures old(count) * 100 / old(size) >= 10 || old(baseSize) / 2 < MinBase ==>
        ok == MeetsEmpty(old(items[..]), key)
    {
      jam := Jam([], map[], [], 0);
      var load := count * 100 / size;
      if load < 10 {
        var shrunk;
        shrunk, jam := ResizeDown();
        if !shrunk {
          return false, jam;
        }
      }
      var found, ended := Unlink(key);
      if !ended {
        return false, jam;
      }
      count := count - 1;
      ok := true;
    }
  }

  /** The loop of `ht_delete`: follow the probe for `key` until it meets an
      empty slot, turning the entry of `key` it passes into a tombstone.
      Slots holding `key` anywhere but where its probe stops are excluded,
      as the layout invariant does. `ended` is false when no empty slot is
      met, where the source's loop does not end. */
  method Sweep(a: array<Slot>, key: string) returns (found: bool, ended: bool)
    requires a.Length > 0
    requires forall i :: 0 <= i < a.Length && a[i].Occupied? && a[i].key == key ==> Where(a[..], key) == Some(i)
    modifies a
    ensures found == Lookup(old(a[..]), key).Some?
    ensures found ==> Where(old(a[..]), key).Some?
    ensures a[..] == if found then old(a[..])[Where(old(a[..]), key).value := Tombstone] else old(a[..])
    ensures ended == MeetsEmpty(old(a[..]), key)
  {
    ghost var s := a[..];
    ghost var present := Lookup(s, key).Some?;
    ghost var first: nat, j: nat := 0, 0;
    if present {
      first, j := Stop(s, key, 0).value, Where(s, key).value;
    }
    ghost var e: nat := if MeetsEmpty(s, key) then EmptyFrom(s, key, 0).value else a.Length;
    found, ended := false, false;
    var attempt := 0;
    while attempt < a.Length
      invariant 0 <= attempt <= e <= a.Length
      invariant found == (present && attempt > first)
      invariant a[..] == if found then s[j := Tombstone] else s
    {
      var index := GetHash(key, a.Length, attempt);
      var slot := a[index];
      assert slot.Empty? == s[index].Empty?;
      if slot.Empty? {
        EmptyStops(s, key, attempt);
        ended := true;
        break;
      }
      if slot.Occupied? && slot.key == key {
        assert !found && present && attempt == first by {
          assert s[index] == slot;
          assert Halts(s, key, attempt);
        }
        a[index] := Tombstone;
        found := true;
      }
      attempt := attempt + 1;
    }
    assert found == present;
  }

  /** A new table has 53 slots, the least prime at or above its base size. */
  lemma InitialSize()
    ensures NextPrime(MinBase) == 53
  {
    assert IsPrime(53);
    assert !IsPrime(50) && !IsPrime(51) && !IsPrime(52) by {
      assert Divides(2, 50) && Divides(3, 51) && Divides(2, 52);
    }
  }

  /** However many deletions shrink it, a table never has fewer slots than
      a new one. */
  lemma ShrinkFloor(t: Table)
    requires t.Valid()
    ensures t.size >= NextPrime(MinBase)
  {
    NextPrimeMonotone(MinBase, t.baseSize);
  }
}
