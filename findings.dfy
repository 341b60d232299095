/**
 Two places where src/hash_table.c does not do what it evidently means to.
 For each, the code as written is modelled here next to an input that
 exposes it; the corrected behaviour is what `HashTable` models and proves.
 */
module Findings {

  import opened Primes
  import opened Probing
  import opened HashTable

  /** The slot count `ht_new_sized` computes as written: `next_prime` of the
      table's `size` field, which nothing has set yet (`malloc` leaves it
      holding whatever `unset` is), so the requested base size plays no part. */
  function SizeAsWritten(base: nat, unset: nat): (size: nat)
    ensures IsPrime(size) && unset <= size
    ensures forall q :: unset <= q < size ==> !IsPrime(q)
  {
    NextPrime(unset)
  }

  /** When the fresh allocation holds 0 in `size`, a new table gets 2 slots
      instead of the 53 its base size asks for. */
  lemma UninitialisedSizeAsWritten()
    ensures SizeAsWritten(MinBase, 0) == 2
    ensures NextPrime(MinBase) == 53
  {
    assert IsPrime(2);
    InitialSize();
  }

  /** `ht_delete` as written, on a key a new table does not hold: the count
      drops to -1 while no slot is occupied, so it no longer counts the
      entries (and the next load factor is negative). */
  method DeleteAbsentAsWritten() returns (t: Table)
    ensures t.Layout() && t.contents == map[]
    ensures t.count == -1 && Occupancy(t.items[..]) == 0
  {
    t := Table.New();
    EmptyStops(t.items[..], "absent", 0);
    var ok, jam := t.DeleteAsWritten("absent");
  }

  /** The corrected delete on the same input keeps the count at the number
      of entries. */
  method DeleteAbsent() returns (t: Table)
    ensures t.Valid() && t.contents == map[] && t.count == 0
  {
    t := Table.New();
    var ok, jam := t.Delete("absent");
  }
}
