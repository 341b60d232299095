/**
 Slots and probe sequences. A table's slot array is read here as a value,
 `seq<Slot>`; the functions below say where the probe for a key stops and
 what a search finds there, and `Stored` is the layout invariant that ties a
 slot sequence to the key/value map it represents.
 */
module Probing {

  import opened Hashing
  import Arith
  import Primes

  datatype Option<T> = None | Some(value: T)

  /** A slot is never used (a NULL pointer in the source), a tombstone left
      by a deletion (the shared deleted-item sentinel), or a live entry. */
  datatype Slot = Empty | Tombstone | Occupied(key: string, value: string)

  /** The probe for `key` stops at `attempt`: the slot there is empty or
      holds `key`. Tombstones and other keys let the probe go on. */
  predicate Halts(slots: seq<Slot>, key: string, attempt: nat)
    requires |slots| > 0
  {
    var slot := slots[GetHash(key, |slots|, attempt)];
    slot.Empty? || (slot.Occupied? && slot.key == key)
  }

  /** No more slots are occupied than there are slots. */
  lemma {:induction false} OccupancyAtMost(s: seq<Slot>, n: nat)
    requires n <= |s|
    ensures OccupiedBelow(s, n) <= n
  {
    if n > 0 {
      OccupancyAtMost(s, n - 1);
    }
  }

  /** The first attempt at or after `from`, and below `|slots|`, at which the
      probe for `key` stops; `None` when there is none. */
  function Stop(slots: seq<Slot>, key: string, from: nat): (r: Option<nat>)
    requires |slots| > 0
    decreases |slots| - from
    ensures r.Some? ==> from <= r.value < |slots| && Halts(slots, key, r.value)
    ensures forall u :: from <= u < |slots| && (r.None? || u < r.value) ==> !Halts(slots, key, u)
  {
    if from >= |slots| then None
    else if Halts(slots, key, from) then Some(from)
    else Stop(slots, key, from + 1)
  }

  /** The slot index at which the probe for `key` stops. */
  function Where(slots: seq<Slot>, key: string): (r: Option<nat>)
    requires |slots| > 0
    ensures r.Some? ==> r.value < |slots|
    ensures r.Some? <==> Stop(slots, key, 0).Some?
  {
    match Stop(slots, key, 0)
    case None => None
    case Some(attempt) => Some(GetHash(key, |slots|, attempt))
  }

  /** What a search for `key` finds: the value in the slot where its probe
      stops, if that slot is occupied (it then holds `key`). */
  function Lookup(slots: seq<Slot>, key: string): (r: Option<string>)
    requires |slots| > 0
    ensures r.Some? ==> Where(slots, key).Some? && slots[Where(slots, key).value] == Occupied(key, r.value)
  {
    match Where(slots, key)
    case None => None
    case Some(j) => if slots[j].Occupied? then Some(slots[j].value) else None
  }

  /** No slot is a tombstone, as in a table that has only ever been filled. */
  predicate NoTombstones(slots: seq<Slot>)
  {
    forall j :: 0 <= j < |slots| ==> !slots[j].Tombstone?
  }

  /** Writing an entry into a slot keeps the slots free of tombstones. */
  lemma NoTombstonesPlace(s: seq<Slot>, j: nat, x: Slot)
    requires j < |s| && !x.Tombstone?
    ensures NoTombstones(s) ==> NoTombstones(s[j := x])
  {
  }

  /** Number of occupied slots among the first `n`. */
  function OccupiedBelow(slots: seq<Slot>, n: nat): nat
    requires n <= |slots|
  {
    if n == 0 then 0
    else OccupiedBelow(slots, n - 1) + (if slots[n - 1].Occupied? then 1 else 0)
  }

  /** Number of occupied slots. */
  function Occupancy(slots: seq<Slot>): nat
  {
    OccupiedBelow(slots, |slots|)
  }

  /** Slot `j` holds an entry. (Named so that the layout invariant below is
      only instantiated for slots a proof asks about.) */
  predicate EntryAt(slots: seq<Slot>, j: int)
  {
    0 <= j < |slots| && slots[j].Occupied?
  }

  /** The slots represent the map `m`: every entry is in `m` and is where its
      own probe stops (so each key occupies at most one slot, reachable before
      any empty slot), and every key of `m` is found by a search. */
  ghost predicate Stored(slots: seq<Slot>, m: map<string, string>)
    requires |slots| > 0
  {
    (forall j {:trigger EntryAt(slots, j)} :: EntryAt(slots, j) ==>
      slots[j].key in m && m[slots[j].key] == slots[j].value && Where(slots, slots[j].key) == Some(j))
    && (forall k {:trigger Lookup(slots, k)} :: k in m ==> Lookup(slots, k) == Some(m[k]))
  }

  /** The slots represent `m`, and `c` counts both its keys and the
      occupied slots. */
  ghost predicate Represents(slots: seq<Slot>, m: map<string, string>, c: int)
    requires |slots| > 0
  {
    Stored(slots, m) && c == |m| && c == Occupancy(slots)
  }

  /** Placing `key` where its probe stops keeps the representation; the
      count grows by one exactly when that slot was empty, which is exactly
      when `key` was absent. */
  lemma PlaceKeeps(s: seq<Slot>, m: map<string, string>, c: int, key: string, value: string)
    requires |s| > 0 && Represents(s, m, c) && Where(s, key).Some?
    ensures var j := Where(s, key).value;
      (s[j].Empty? <==> key !in m)
      && Represents(s[j := Occupied(key, value)], m[key := value], c + (if key in m then 0 else 1))
  {
    var j := Where(s, key).value;
    StoredAfterPlace(s, m, key, value);
    OccupancyUpdate(s, j, Occupied(key, value));
    LookupAgrees(s, m, key);
    if s[j].Occupied? {
      assert EntryAt(s, j);
    }
  }

  /** Tombstoning the entry of a present `key` keeps the representation with
      one entry fewer. */
  lemma RemoveKeeps(s: seq<Slot>, m: map<string, string>, c: int, key: string)
    requires |s| > 0 && Represents(s, m, c) && key in m
    ensures Where(s, key).Some?
    ensures var j := Where(s, key).value;
      s[j] == Occupied(key, m[key]) && Represents(s[j := Tombstone], m - {key}, c - 1)
  {
    StoredAfterRemove(s, m, key);
    OccupancyUpdate(s, Where(s, key).value, Tombstone);
  }

  /** The probe for `k` stops at a slot below `i`. */
  ghost predicate StopsBefore(slots: seq<Slot>, k: string, i: nat)
    requires |slots| > 0
  {
    match Where(slots, k)
    case None => false
    case Some(j) => j < i
  }

  /** The entries of `m` whose probe stops below slot `i`: what a rebuild
      that has copied the first `i` slots holds. */
  ghost function CopiedBelow(slots: seq<Slot>, m: map<string, string>, i: nat): map<string, string>
    requires |slots| > 0
  {
    map k | k in m && StopsBefore(slots, k, i) :: m[k]
  }

  /** The probe for a stored key stops at that key's own entry. */
  lemma OwnSlot(slots: seq<Slot>, m: map<string, string>, k: string)
    requires |slots| > 0 && Stored(slots, m) && k in m
    ensures Where(slots, k).Some?
    ensures slots[Where(slots, k).value] == Occupied(k, m[k])
  {
    assert Lookup(slots, k) == Some(m[k]);
    assert Halts(slots, k, Stop(slots, k, 0).value);
  }

  /** In slots that represent `m`, a search finds `key` exactly when `m`
      holds it, and the only slot holding `key` is where its probe stops. */
  lemma OnlySlot(slots: seq<Slot>, m: map<string, string>, key: string)
    requires |slots| > 0 && Stored(slots, m)
    ensures key in m <==> Lookup(slots, key).Some?
    ensures forall i :: 0 <= i < |slots| && slots[i].Occupied? && slots[i].key == key ==> Where(slots, key) == Some(i)
  {
    if Lookup(slots, key).Some? {
      assert EntryAt(slots, Where(slots, key).value);
    }
    forall i | 0 <= i < |slots| && slots[i].Occupied? && slots[i].key == key
      ensures Where(slots, key) == Some(i)
    {
      assert EntryAt(slots, i);
    }
  }

  /** Copying slot `i` adds its entry, if it holds one, and nothing else;
      that entry was not copied before. */
  lemma CopyStep(slots: seq<Slot>, m: map<string, string>, i: nat)
    requires |slots| > 0 && Stored(slots, m) && i < |slots|
    ensures slots[i].Occupied? ==>
      slots[i].key in m && slots[i].value == m[slots[i].key]
      && slots[i].key !in CopiedBelow(slots, m, i)
      && CopiedBelow(slots, m, i + 1) == CopiedBelow(slots, m, i)[slots[i].key := slots[i].value]
    ensures !slots[i].Occupied? ==> CopiedBelow(slots, m, i + 1) == CopiedBelow(slots, m, i)
  {
    var a, b := CopiedBelow(slots, m, i), CopiedBelow(slots, m, i + 1);
    forall k | k in m
      ensures StopsBefore(slots, k, i + 1) <==> StopsBefore(slots, k, i) || slots[i] == Occupied(k, m[k])
    {
      OwnSlot(slots, m, k);
      if slots[i] == Occupied(k, m[k]) {
        assert EntryAt(slots, i);
      }
    }
    if slots[i].Occupied? {
      assert EntryAt(slots, i);
      assert b == a[slots[i].key := slots[i].value];
    } else {
      assert b == a;
    }
  }

  /** Once every slot is copied, the rebuild holds all of `m`. */
  lemma CopiedAll(slots: seq<Slot>, m: map<string, string>)
    requires |slots| > 0 && Stored(slots, m)
    ensures CopiedBelow(slots, m, |slots|) == m
  {
    forall k | k in m
      ensures StopsBefore(slots, k, |slots|)
    {
      assert Lookup(slots, k) == Some(m[k]);
    }
  }

  /** A stop at `attempt` preceded by no stop is the first stop. */
  lemma StopAt(slots: seq<Slot>, key: string, attempt: nat)
    requires attempt < |slots| && Halts(slots, key, attempt)
    requires forall u :: 0 <= u < attempt ==> !Halts(slots, key, u)
    ensures Stop(slots, key, 0) == Some(attempt)
  {
  }

  /** An empty slot met at `attempt` means the probe stops there or earlier. */
  lemma EmptyStops(slots: seq<Slot>, key: string, attempt: nat)
    requires attempt < |slots| && slots[GetHash(key, |slots|, attempt)].Empty?
    ensures Stop(slots, key, 0).Some? && Stop(slots, key, 0).value <= attempt
    ensures MeetsEmpty(slots, key)
  {
    assert Halts(slots, key, attempt);
  }

  /** Changing slots that the probe for `k` does not stop at any earlier
      differently leaves its first stop where it was. */
  lemma StopKept(s: seq<Slot>, s': seq<Slot>, k: string)
    requires |s| == |s'| > 0 && Stop(s, k, 0).Some?
    requires forall u :: 0 <= u <= Stop(s, k, 0).value ==> Halts(s', k, u) == Halts(s, k, u)
    ensures Stop(s', k, 0) == Stop(s, k, 0)
  {
    StopAt(s', k, Stop(s, k, 0).value);
  }

  /** Writing into slot `j` something that does not stop the probe for `k`
      leaves a search for `k` unchanged, as long as its probe stops elsewhere. */
  lemma OtherKeyKept(s: seq<Slot>, j: nat, x: Slot, k: string)
    requires j < |s| && Where(s, k).Some? && Where(s, k).value != j
    requires !(x.Empty? || (x.Occupied? && x.key == k))
    ensures Where(s[j := x], k) == Where(s, k)
    ensures Lookup(s[j := x], k) == Lookup(s, k)
  {
    var s' := s[j := x];
    forall u | 0 <= u <= Stop(s, k, 0).value
      ensures Halts(s', k, u) == Halts(s, k, u)
    {
      if GetHash(k, |s|, u) != j {
        assert s'[GetHash(k, |s|, u)] == s[GetHash(k, |s|, u)];
      }
    }
    StopKept(s, s', k);
  }

  /** A search finds exactly what the represented map holds. */
  lemma LookupAgrees(slots: seq<Slot>, m: map<string, string>, key: string)
    requires |slots| > 0 && Stored(slots, m)
    ensures Lookup(slots, key) == if key in m then Some(m[key]) else None
  {
    match Where(slots, key)
    case None =>
    case Some(j) =>
      assert Halts(slots, key, Stop(slots, key, 0).value);
      if slots[j].Occupied? {
        assert EntryAt(slots, j);
      }
  }

  /** Putting `key` where its probe stops (an empty slot or its own entry)
      keeps the layout invariant, with `key` now mapped to `value`. */
  lemma StoredAfterPlace(s: seq<Slot>, m: map<string, string>, key: string, value: string)
    requires |s| > 0 && Stored(s, m) && Where(s, key).Some?
    ensures var j := Where(s, key).value;
      s[j].Empty? || (s[j].Occupied? && s[j].key == key)
    ensures var j := Where(s, key).value;
      Stored(s[j := Occupied(key, value)], m[key := value]) && Where(s[j := Occupied(key, value)], key) == Some(j)
  {
    var t, j := Stop(s, key, 0).value, Where(s, key).value;
    assert Halts(s, key, t);
    var x := Occupied(key, value);
    var s', m' := s[j := x], m[key := value];
    forall u | 0 <= u <= t
      ensures Halts(s', key, u) == Halts(s, key, u)
    {
      if GetHash(key, |s|, u) != j {
        assert s'[GetHash(key, |s|, u)] == s[GetHash(key, |s|, u)];
      }
    }
    StopKept(s, s', key);
    forall i | EntryAt(s', i)
      ensures s'[i].key in m' && m'[s'[i].key] == s'[i].value && Where(s', s'[i].key) == Some(i)
    {
      if i != j {
        assert EntryAt(s, i);
        var k := s[i].key;
        assert Where(s, k) == Some(i);
        if k == key {
          assert false;
        }
        OtherKeyKept(s, j, x, k);
      }
    }
    forall k | k in m'
      ensures Lookup(s', k) == Some(m'[k])
    {
      if k != key {
        assert Lookup(s, k) == Some(m[k]);
        assert Halts(s, k, Stop(s, k, 0).value);
        OtherKeyKept(s, j, x, k);
      }
    }
  }

  /** Turning the entry of `key` into a tombstone keeps the layout invariant,
      with `key` no longer mapped. */
  lemma StoredAfterRemove(s: seq<Slot>, m: map<string, string>, key: string)
    requires |s| > 0 && Stored(s, m) && key in m
    ensures Where(s, key).Some?
    ensures var j := Where(s, key).value;
      s[j] == Occupied(key, m[key]) && Stored(s[j := Tombstone], m - {key})
  {
    assert Lookup(s, key) == Some(m[key]);
    var j := Where(s, key).value;
    assert Halts(s, key, Stop(s, key, 0).value);
    var s', m' := s[j := Tombstone], m - {key};
    forall i | EntryAt(s', i)
      ensures s'[i].key in m' && m'[s'[i].key] == s'[i].value && Where(s', s'[i].key) == Some(i)
    {
      assert EntryAt(s, i);
      var k := s[i].key;
      assert Where(s, k) == Some(i);
      OtherKeyKept(s, j, Tombstone, k);
    }
    forall k | k in m'
      ensures Lookup(s', k) == Some(m'[k])
    {
      assert Lookup(s, k) == Some(m[k]);
      assert Halts(s, k, Stop(s, k, 0).value);
      OtherKeyKept(s, j, Tombstone, k);
    }
  }

  /** Overwriting slot `j` changes the count below `n` by what left and
      what came, when `j` is below `n`. */
  lemma {:induction false} OccupiedBelowUpdate(s: seq<Slot>, j: nat, x: Slot, n: nat)
    requires j < |s| && n <= |s|
    ensures OccupiedBelow(s[j := x], n) ==
      OccupiedBelow(s, n) - (if j < n && s[j].Occupied? then 1 else 0) + (if j < n && x.Occupied? then 1 else 0)
  {
    if n > 0 {
      OccupiedBelowUpdate(s, j, x, n - 1);
    }
  }

  /** Overwriting one slot changes the occupancy by what left and what came. */
  lemma OccupancyUpdate(s: seq<Slot>, j: nat, x: Slot)
    requires j < |s|
    ensures Occupancy(s[j := x]) ==
      Occupancy(s) - (if s[j].Occupied? then 1 else 0) + (if x.Occupied? then 1 else 0)
  {
    OccupiedBelowUpdate(s, j, x, |s|);
  }

  /** Slots that are all empty hold no entry. */
  lemma {:induction false} OccupancyAllEmpty(s: seq<Slot>, n: nat)
    requires n <= |s|
    requires forall j :: 0 <= j < |s| ==> s[j] == Empty
    ensures OccupiedBelow(s, n) == 0
  {
    if n > 0 {
      OccupancyAllEmpty(s, n - 1);
    }
  }

  /** The first attempt at or after `from`, and below `|slots|`, at which
      the probe for `key` meets an empty slot; `None` when there is none. */
  function EmptyFrom(slots: seq<Slot>, key: string, from: nat): (r: Option<nat>)
    requires |slots| > 0
    decreases |slots| - from
    ensures r.Some? ==> from <= r.value < |slots| && slots[GetHash(key, |slots|, r.value)].Empty?
    ensures forall u :: from <= u < |slots| && (r.None? || u < r.value) ==> !slots[GetHash(key, |slots|, u)].Empty?
  {
    if from >= |slots| then None
    else if slots[GetHash(key, |slots|, from)].Empty? then Some(from)
    else EmptyFrom(slots, key, from + 1)
  }

  /** The probe for `key` meets an empty slot within `|slots|` attempts:
      the condition under which the loop of `ht_delete`, which only stops at
      an empty slot, ends. */
  predicate MeetsEmpty(slots: seq<Slot>, key: string)
    requires |slots| > 0
  {
    EmptyFrom(slots, key, 0).Some?
  }

  /** Overwriting a slot that is not empty with something that is not empty
      leaves every probe meeting the same empty slots. */
  lemma MeetsEmptyKept(s: seq<Slot>, j: nat, x: Slot, key: string)
    requires j < |s| && !s[j].Empty? && !x.Empty?
    ensures MeetsEmpty(s[j := x], key) == MeetsEmpty(s, key)
  {
    var a, a' := EmptyFrom(s, key, 0), EmptyFrom(s[j := x], key, 0);
    if a.Some? {
      assert s[j := x][GetHash(key, |s|, a.value)].Empty?;
    }
    if a'.Some? {
      assert s[GetHash(key, |s|, a'.value)].Empty?;
    }
  }

  /** A probe that meets no empty slot within `|slots|` attempts meets none
      at any attempt: the loop of `ht_delete` then never ends. */
  lemma NeverEmpty(slots: seq<Slot>, key: string)
    requires |slots| > 0 && !MeetsEmpty(slots, key)
    ensures forall a: nat :: !slots[GetHash(key, |slots|, a)].Empty?
  {
    forall a: nat
      ensures !slots[GetHash(key, |slots|, a)].Empty?
    {
      ProbeRepeats(key, |slots|, a);
    }
  }

  /** A probe that does not stop within `|slots|` attempts stops at no
      attempt: the loops of `ht_insert` and `ht_search` then never end. */
  lemma NeverStops(slots: seq<Slot>, key: string)
    requires |slots| > 0 && Stop(slots, key, 0).None?
    ensures forall a: nat :: !Halts(slots, key, a)
  {
    forall a: nat
      ensures !Halts(slots, key, a)
    {
      ProbeRepeats(key, |slots|, a);
      assert !Halts(slots, key, a % |slots|);
    }
  }

  /** A probe that never stops in slots free of tombstones, with a prime
      number of slots and a step that is not a multiple of it, has passed
      every slot: each holds an entry for a different key, so the map the
      slots represent has at least as many keys as there are slots. */
  lemma StuckMeansFull(slots: seq<Slot>, m: map<string, string>, key: string)
    requires |slots| > 0 && Primes.IsPrime(|slots|) && Hash(key, HtPrime2, |slots|) + 1 < |slots|
    requires Stored(slots, m) && NoTombstones(slots) && Stop(slots, key, 0).None?
    ensures |m| >= |slots|
  {
    var n := |slots|;
    forall i | 0 <= i < n
      ensures EntryAt(slots, i)
    {
      ProbeReaches(key, n, i);
      var a: nat :| a < n && GetHash(key, n, a) == i;
      assert !Halts(slots, key, a);
    }
    var f := (i: nat) => if i < n && slots[i].Occupied? then slots[i].key else "";
    forall a, b | 0 <= a < b < n
      ensures f(a) != f(b)
    {
      assert EntryAt(slots, a) && EntryAt(slots, b);
    }
    Arith.InjectiveImageCard(f, n);
    var image := set a: nat | a < n :: f(a);
    forall k | k in image
      ensures k in m
    {
      var a: nat :| a < n && f(a) == k;
      assert EntryAt(slots, a);
    }
    Arith.SubsetCard(image, m.Keys);
  }
}
