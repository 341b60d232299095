/**
 Concrete runs of the table: the sequence of calls in main.c, and two keys
 whose probes never leave one slot. The hash values used are derived from
 the hash definitions, not taken on trust.
 */
module Demo {

  import opened Hashing
  import opened Probing
  import opened HashTable
  import Arith

  /** Appending a character appends a lowest digit to the numeral. */
  lemma NumeralSnoc(t: string, c: char, a: nat)
    ensures Numeral(t + [c], a) == Numeral(t, a) * a + Code(c)
  {
    assert (t + [c])[..|t|] == t;
  }

  /** A hash into 53 buckets read off the key's numeral. */
  lemma HashIn53(s: string, a: nat, q: nat, h: nat)
    requires h < 53 && Numeral(s, a) == 53 * q + h
    ensures Hash(s, a, 53) == h
  {
    HashIsNumeral(s, a, 53);
    Arith.DivModUnique(Numeral(s, a), 53, q, h);
  }

  /** The first two slots probed for "foo" in a new table. */
  lemma FooProbe()
    ensures GetHash("foo", 53, 0) == 27
    ensures GetHash("foo", 53, 1) == 34
  {
    NumeralSnoc([], 'f', HtPrime1);
    assert [] + ['f'] == "f";
    assert Numeral("f", HtPrime1) == 102;
    NumeralSnoc("f", 'o', HtPrime1);
    assert "f" + ['o'] == "fo";
    assert Numeral("fo", HtPrime1) == 15513;
    NumeralSnoc("fo", 'o', HtPrime1);
    assert "fo" + ['o'] == "foo";
    assert Numeral("foo", HtPrime1) == 2342574;
    HashIn53("foo", HtPrime1, 44199, 27);
    FirstProbe("foo", 53);
    NumeralSnoc([], 'f', HtPrime2);
    assert Numeral("f", HtPrime2) == 102;
    NumeralSnoc("f", 'o', HtPrime2);
    assert Numeral("fo", HtPrime2) == 20409;
    NumeralSnoc("fo", 'o', HtPrime2);
    assert Numeral("foo", HtPrime2) == 4061502;
    HashIn53("foo", HtPrime2, 76632, 6);
  }

  /** The first slot probed for "not" in a new table. */
  lemma NotProbe()
    ensures GetHash("not", 53, 0) == 14
  {
    NumeralSnoc([], 'n', HtPrime1);
    assert [] + ['n'] == "n";
    assert Numeral("n", HtPrime1) == 110;
    NumeralSnoc("n", 'o', HtPrime1);
    assert "n" + ['o'] == "no";
    assert Numeral("no", HtPrime1) == 16721;
    NumeralSnoc("no", 't', HtPrime1);
    assert "no" + ['t'] == "not";
    assert Numeral("not", HtPrime1) == 2524987;
    HashIn53("not", HtPrime1, 47641, 14);
    FirstProbe("not", 53);
  }

  /** The first slot probed for "name" in a new table. */
  lemma NameProbe()
    ensures GetHash("name", 53, 0) == 50
  {
    NumeralSnoc([], 'n', HtPrime1);
    assert [] + ['n'] == "n";
    assert Numeral("n", HtPrime1) == 110;
    NumeralSnoc("n", 'a', HtPrime1);
    assert "n" + ['a'] == "na";
    assert Numeral("na", HtPrime1) == 16707;
    NumeralSnoc("na", 'm', HtPrime1);
    assert "na" + ['m'] == "nam";
    assert Numeral("nam", HtPrime1) == 2522866;
    NumeralSnoc("nam", 'e', HtPrime1);
    assert "nam" + ['e'] == "name";
    assert Numeral("name", HtPrime1) == 380952867;
    HashIn53("name", HtPrime1, 7187789, 50);
    FirstProbe("name", 53);
  }

  /** The first slot probed for "number" in a new table. */
  lemma NumberProbe()
    ensures GetHash("number", 53, 0) == 17
  {
    NumeralSnoc([], 'n', HtPrime1);
    assert [] + ['n'] == "n";
    assert Numeral("n", HtPrime1) == 110;
    NumeralSnoc("n", 'u', HtPrime1);
    assert "n" + ['u'] == "nu";
    assert Numeral("nu", HtPrime1) == 16727;
    NumeralSnoc("nu", 'm', HtPrime1);
    assert "nu" + ['m'] == "num";
    assert Numeral("num", HtPrime1) == 2525886;
    NumeralSnoc("num", 'b', HtPrime1);
    assert "num" + ['b'] == "numb";
    assert Numeral("numb", HtPrime1) == 381408884;
    NumeralSnoc("numb", 'e', HtPrime1);
    assert "numb" + ['e'] == "numbe";
    assert Numeral("numbe", HtPrime1) == 57592741585;
    NumeralSnoc("numbe", 'r', HtPrime1);
    assert "numbe" + ['r'] == "number";
    assert Numeral("number", HtPrime1) == 8696503979449;
    HashIn53("number", HtPrime1, 164084980744, 17);
    FirstProbe("number", 53);
  }

  /** Inserting into a table whose slot `index` is where the key's probe
      starts, and empty, puts the entry there. */
  lemma LandsAt(s: seq<Slot>, key: string, index: nat)
    requires |s| > 0 && index < |s|
    requires GetHash(key, |s|, 0) == index && s[index] == Empty
    ensures Where(s, key) == Some(index)
  {
    EmptyStops(s, key, 0);
  }

  /** One insertion of main.c into a table of 53 slots and low load whose
      probe for `key` starts at the empty slot `index`: it succeeds and puts
      the entry there. */
  method InsertAt(t: Table, key: string, value: string, index: nat)
    requires t.Valid() && t.size == 53 && t.count <= 36
    requires index < t.items.Length && GetHash(key, 53, 0) == index && t.items[index] == Empty
    requires key !in t.contents
    modifies t, t.items
    ensures t.Valid() && t.size == 53 && t.baseSize == old(t.baseSize) && t.items == old(t.items)
    ensures t.count == old(t.count) + 1
    ensures t.contents == old(t.contents)[key := value]
    ensures t.items[..] == old(t.items[..])[index := Occupied(key, value)]
  {
    LandsAt(t.items[..], key, index);
    var ok, jam := t.Insert(key, value);
  }

  /** While slots 14 and 34 of a 53-slot table are empty, the probe for
      "not" stops at once and the probe for "foo" stops by its second
      attempt, where it also meets an empty slot. */
  lemma MainProbesStop(s: seq<Slot>)
    requires |s| == 53 && s[14] == Empty && s[34] == Empty
    ensures Where(s, "not").Some? && Where(s, "foo").Some? && MeetsEmpty(s, "foo")
  {
    NotProbe();
    FooProbe();
    EmptyStops(s, "not", 0);
    EmptyStops(s, "foo", 1);
  }

  /** What the three insertions of main.c leave in an empty map. */
  lemma MainEntries(c: map<string, string>)
    requires c == map["foo" := "bar"]["name" := "ruofeng"]["number" := "41524226"]
    ensures "foo" in c && c["foo"] == "bar"
    ensures "name" in c && c["name"] == "ruofeng"
    ensures "number" in c && c["number"] == "41524226"
    ensures "not" !in c && |c| == 3
  {
    assert "foo" != "name" && "foo" != "number" && "name" != "number" by {
      assert |"foo"| == 3 && |"name"| == 4 && |"number"| == 6;
    }
    assert "not" != "foo" && "not" != "name" && "not" != "number" by {
      assert "not"[0] != "foo"[0] && |"not"| == 3;
    }
  }

  /** The three insertions main.c starts with, into a new table. */
  method Populate() returns (t: Table)
    ensures fresh(t) && fresh(t.items) && t.Valid() && t.baseSize == MinBase && t.size == 53 && t.count == 3
    ensures "foo" in t.contents && t.contents["foo"] == "bar"
    ensures "name" in t.contents && t.contents["name"] == "ruofeng"
    ensures "number" in t.contents && t.contents["number"] == "41524226"
    ensures "not" !in t.contents
    ensures t.items[14] == Empty && t.items[34] == Empty
  {
    t := Table.New();
    InitialSize();
    FooProbe();
    NameProbe();
    NumberProbe();
    InsertAt(t, "foo", "bar", 27);
    InsertAt(t, "name", "ruofeng", 50);
    InsertAt(t, "number", "41524226", 17);
    MainEntries(t.contents);
  }

  /** An update of a key the table holds, at low load: it succeeds, the
      number of entries stays the same and no empty slot is used up. */
  method Update(t: Table, key: string, value: string)
    requires t.Valid() && t.size == 53 && t.count <= 36 && key in t.contents
    modifies t, t.items
    ensures t.Valid() && t.size == 53 && t.baseSize == old(t.baseSize) && t.count == old(t.count)
    ensures t.items == old(t.items)
    ensures t.contents == old(t.contents)[key := value]
    ensures forall i :: 0 <= i < t.items.Length && old(t.items[i]) == Empty ==> t.items[i] == Empty
  {
    OwnSlot(t.items[..], t.contents, key);
    var ok, jam := t.Insert(key, value);
  }

  /** A deletion from a table at the initial base size, which is never
      shrunk: the entry goes, no empty slot is used up, and the deletion
      finishes exactly when the key's probe meets an empty slot. */
  method DeleteAtInitialBase(t: Table, key: string) returns (ok: bool)
    requires t.Valid() && t.baseSize == MinBase
    modifies t, t.items
    ensures t.Valid() && t.size == old(t.size) && t.items == old(t.items)
    ensures t.contents == old(t.contents) - {key}
    ensures ok == MeetsEmpty(old(t.items[..]), key)
    ensures forall i :: 0 <= i < t.items.Length && old(t.items[i]) == Empty ==> t.items[i] == Empty
  {
    if key in t.contents {
      OwnSlot(t.items[..], t.contents, key);
    }
    ghost var jam: Jam;
    ok, jam := t.Delete(key);
  }

  /** The run of main.c: three insertions into a new table, two searches,
      an update of "foo", a search for an absent key, and a search after
      deleting "foo". Every insertion succeeds, every search and the
      deletion finish, and every search finds what main.c expects. */
  method MainScenario() returns (foo: Option<string>, name: Option<string>, updated: Option<string>,
                                 missing: Option<string>, deleted: Option<string>, finished: bool)
    ensures foo == Some("bar") && name == Some("ruofeng") && updated == Some("barr")
    ensures missing == None && deleted == None
    ensures finished
  {
    assert "not" != "foo" && "name" != "foo" by {
      assert "not"[0] != "foo"[0] && |"name"| == 4;
    }
    var t := Populate();
    var found, named, refound, notFound, removed, gone;
    foo, found := t.Search("foo");
    name, named := t.Search("name");
    Update(t, "foo", "barr");
    updated, refound := t.Search("foo");
    MainProbesStop(t.items[..]);
    missing, notFound := t.Search("not");
    removed := DeleteAtInitialBase(t, "foo");
    MainProbesStop(t.items[..]);
    deleted, gone := t.Search("foo");
    finished := found && named && refound && notFound && removed && gone;
  }

  /** "4" and "i" both hash to 52 under either multiplier in 53 buckets, so
      their probe step is 53 and every attempt probes slot 52. */
  lemma CyclingKeys(attempt: nat)
    ensures GetHash("4", 53, attempt) == 52
    ensures GetHash("i", 53, attempt) == 52
  {
    NumeralSnoc([], '4', HtPrime1);
    NumeralSnoc([], '4', HtPrime2);
    NumeralSnoc([], 'i', HtPrime1);
    NumeralSnoc([], 'i', HtPrime2);
    assert [] + ['4'] == "4" && [] + ['i'] == "i";
    HashIn53("4", HtPrime1, 0, 52);
    HashIn53("4", HtPrime2, 0, 52);
    HashIn53("i", HtPrime1, 1, 52);
    HashIn53("i", HtPrime2, 1, 52);
    DegenerateStep("4", 53, attempt);
    DegenerateStep("i", 53, attempt);
  }

  /** Once slot 52 holds "4", the probe for "i" never stops. */
  lemma CycleNeverStops(s: seq<Slot>)
    requires |s| == 53 && s[52] == Occupied("4", "x")
    ensures Where(s, "i") == None
  {
    forall u: nat
      ensures !Halts(s, "i", u)
    {
      CyclingKeys(u);
    }
  }

  /** Once slot 52 holds "4", the probe for "4" never meets an empty slot. */
  lemma CycleMeetsNoEmpty(s: seq<Slot>)
    requires |s| == 53 && s[52] == Occupied("4", "x")
    ensures !MeetsEmpty(s, "4")
  {
    if MeetsEmpty(s, "4") {
      CyclingKeys(EmptyFrom(s, "4", 0).value);
    }
  }

  /** In a new table, "4" is stored in slot 52; then no probe for "i" ever
      stops, so a search for it and inserting it both fail, and the table
      keeps only "4". (The source's search and insertion loops never end on
      this input.) */
  method CyclingProbe() returns (first: bool, searched: bool, second: bool, t: Table)
    ensures first && !searched && !second
    ensures t.contents == map["4" := "x"]
  {
    t := Table.New();
    InitialSize();
    CyclingKeys(0);
    LandsAt(t.items[..], "4", 52);
    ghost var jam: Jam;
    first, jam := t.Insert("4", "x");
    CycleNeverStops(t.items[..]);
    var r;
    r, searched := t.Search("i");
    second, jam := t.Insert("i", "y");
  }

  /** In a new table holding only "4", in slot 52, deleting "4" turns its
      entry into a tombstone and then reports failure: the probe never meets
      an empty slot, and the source's deletion loop never ends. */
  method CyclingDelete() returns (inserted: bool, ok: bool, t: Table)
    ensures inserted && !ok
    ensures t.contents == map[]
    ensures t.items.Length == 53 && t.items[52] == Tombstone
  {
    t := Table.New();
    InitialSize();
    CyclingKeys(0);
    LandsAt(t.items[..], "4", 52);
    ghost var jam: Jam;
    inserted, jam := t.Insert("4", "x");
    CycleMeetsNoEmpty(t.items[..]);
    ok, jam := t.Delete("4");
  }
}
