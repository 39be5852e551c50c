/** The unit scenarios of HashTableTest.java, each returning what the test
    observes and stating in its contract the outcome the test expects. */
module Scenarios {
  import opened Outcomes
  import opened Chains
  import opened Hashing
  import opened HashTables

  /** The table reports collision scheme 5, an array of linked nodes. */
  method CollisionSchemeIsFive() returns (code: int)
    ensures code == 5
  {
    var table := new HashTable<string>.Default();
    code := table.GetCollisionResolution();
  }

  /** Inserting a null key fails with IllegalNullKey. */
  method InsertNullKey() returns (r: Status)
    ensures r == Fail(IllegalNullKey)
  {
    var table := new HashTable<string>.Default();
    r := table.Insert(None, "");
  }

  /** Inserting a key twice fails the second time with DuplicateKey and
      keeps the first value. */
  method InsertDuplicate() returns (r: Status, v: Result<string>)
    ensures r == Fail(DuplicateKey) && v == Success("one")
  {
    var table := new HashTable<string>.Default();
    var first := table.Insert(Some(1), "one");
    r := table.Insert(Some(1), "another one");
    v := table.Get(Some(1));
  }

  /** Removing a null key fails with IllegalNullKey. */
  method RemoveNullKey() returns (r: Result<bool>)
    ensures r == Failure(IllegalNullKey)
  {
    var table := new HashTable<string>.Default();
    var inserted := table.Insert(Some(1), "one");
    r := table.Remove(None);
  }

  /** Getting a null key fails with IllegalNullKey. */
  method GetNullKey() returns (r: Result<string>)
    ensures r == Failure(IllegalNullKey)
  {
    var table := new HashTable<string>.Default();
    var inserted := table.Insert(Some(1), "one");
    r := table.Get(None);
  }

  /** Getting a key that was never inserted fails with KeyNotFound. */
  method GetMissingKey() returns (r: Result<string>)
    ensures r == Failure(KeyNotFound)
  {
    var table := new HashTable<string>.Default();
    var inserted := table.Insert(Some(1), "one");
    r := table.Get(Some(2));
  }

  /** The key count is 0 when empty, 5 after five insertions and 4 after a
      removal. */
  method NumKeysCounts() returns (empty: int, full: int, removed: int)
    ensures empty == 0 && full == 5 && removed == 4
  {
    var table := new HashTable<string>.Default();
    empty := table.NumKeys();
    InsertOneTwoThree(table);
    InsertFourFive(table);
    full := table.NumKeys();
    var gone := table.Remove(Some(1));
    removed := table.NumKeys();
  }

  /** Inserts keys 1, 2 and 3 into an empty table of 11 buckets: no
      collision and no resize. */
  method InsertOneTwoThree(table: HashTable<string>)
    requires table.Valid() && table.Contents == map[] && table.capacity == 11
    requires table.loadFactorThreshold == 0.75
    modifies table, table.hashTable
    ensures table.Valid() && table.hashTable == old(table.hashTable)
    ensures table.capacity == 11 && table.numKeys == 3
    ensures table.Contents == map[1 := "one", 2 := "two", 3 := "three"]
  {
    var r1 := table.Insert(Some(1), "one");
    var r2 := table.Insert(Some(2), "two");
    var r3 := table.Insert(Some(3), "three");
  }

  /** Inserts keys 4 and 5 after keys 1, 2 and 3: five keys, still no
      resize. */
  method InsertFourFive(table: HashTable<string>)
    requires table.Valid() && table.capacity == 11 && table.numKeys == 3
    requires table.Contents == map[1 := "one", 2 := "two", 3 := "three"]
    requires table.loadFactorThreshold == 0.75
    modifies table, table.hashTable
    ensures table.Valid() && table.hashTable == old(table.hashTable)
    ensures table.capacity == 11 && table.numKeys == 5 && 1 in table.Contents
  {
    var r4 := table.Insert(Some(4), "four");
    var r5 := table.Insert(Some(5), "five");
  }

  /** Three keys in three buckets of the default table: load factor 3/11. */
  method LoadFactorWithoutCollision() returns (f: real)
    ensures f == 3.0 / 11.0
  {
    var table := new HashTable<string>.Default();
    InsertOneTwoThree(table);
    f := table.GetLoadFactor();
  }

  /** Keys 1 and 12 share bucket 1; the load factor still counts keys: 3/11. */
  method LoadFactorWithCollision() returns (f: real)
    ensures f == 3.0 / 11.0
  {
    var table := new HashTable<string>.Default();
    var r1 := table.Insert(Some(1), "one");
    var r2 := table.Insert(Some(12), "one");
    var r3 := table.Insert(Some(25), "three");
    f := table.GetLoadFactor();
  }

  /** A key in its own bucket is found with its value. */
  method GetWithoutCollision() returns (r: Result<string>)
    ensures r == Success("two")
  {
    var table := new HashTable<string>.Default();
    InsertOneTwoThree(table);
    r := table.Get(Some(2));
  }

  /** Keys 1, 12 and 23 all hash to bucket 1 of 11 and are chained there in
      insertion order; the middle one is found. */
  method GetWithCollision() returns (chain: Chain<string>, r: Result<string>)
    ensures chain == [Entry(1, "one"), Entry(12, "one"), Entry(23, "one")]
    ensures r == Success("one")
  {
    var table := ChainOfThree();
    chain := table.hashTable[1];
    r := table.Get(Some(12));
  }

  /** Removing a present key reports true and leaves two keys. */
  method RemoveWithoutCollision() returns (r: Result<bool>, n: int)
    ensures r == Success(true) && n == 2
  {
    var table := new HashTable<string>.Default();
    InsertOneTwoThree(table);
    r := table.Remove(Some(2));
    n := table.numKeys;
  }

  /** Removing the middle node of the chain 1 -> 12 -> 23 relinks 1 to 23. */
  method RemoveWithCollision() returns (r: Result<bool>, n: int, chain: Chain<string>)
    ensures r == Success(true) && n == 2
    ensures chain == [Entry(1, "one"), Entry(23, "one")]
  {
    var table := ChainOfThree();
    r := table.Remove(Some(12));
    assert RemoveKey([Entry(1, "one"), Entry(12, "one"), Entry(23, "one")], 12)
        == [Entry(1, "one"), Entry(23, "one")];
    n := table.numKeys;
    chain := table.hashTable[1];
  }

  /** The default table after inserting 1 and 12, which collide in
      bucket 1. */
  method ChainOfTwo() returns (table: HashTable<string>)
    ensures table.Valid() && fresh(table) && fresh(table.hashTable)
    ensures table.capacity == 11 && table.numKeys == 2 && table.loadFactorThreshold == 0.75
    ensures table.Contents == map[1 := "one", 12 := "one"]
    ensures table.hashTable[1] == [Entry(1, "one"), Entry(12, "one")]
  {
    table := new HashTable<string>.Default();
    assert LoadFactor(1, 11) < 0.75 && LoadFactor(2, 11) < 0.75;
    assert HashFunction(1, 11) == 1 && HashFunction(12, 11) == 1;
    var r1 := table.Insert(Some(1), "one");
    assert table.capacity == 11 && table.hashTable[1] == [Entry(1, "one")];
    var r2 := table.Insert(Some(12), "one");
  }

  /** The default table after inserting 1, 12 and 23, which collide in
      bucket 1. */
  method ChainOfThree() returns (table: HashTable<string>)
    ensures table.Valid() && fresh(table) && fresh(table.hashTable)
    ensures table.capacity == 11 && table.numKeys == 3
    ensures table.Contents == map[1 := "one", 12 := "one", 23 := "one"]
    ensures table.hashTable[1] == [Entry(1, "one"), Entry(12, "one"), Entry(23, "one")]
  {
    table := ChainOfTwo();
    assert LoadFactor(3, 11) < 0.75 && HashFunction(23, 11) == 1;
    var r3 := table.Insert(Some(23), "one");
  }

  /** A table of 4 buckets, threshold 0.75, after inserting 1 and 2. */
  method OneTwoInFour() returns (table: HashTable<string>)
    ensures table.Valid() && fresh(table) && fresh(table.hashTable)
    ensures table.capacity == 4 && table.numKeys == 2 && table.loadFactorThreshold == 0.75
    ensures table.Contents == map[1 := "one", 2 := "two"]
  {
    table := new HashTable<string>(4, 0.75);
    assert LoadFactor(1, 4) < 0.75 && LoadFactor(2, 4) < 0.75;
    var r1 := table.Insert(Some(1), "one");
    var r2 := table.Insert(Some(2), "two");
  }

  /** Capacity 4, threshold 0.75: the third key brings the load factor to
      0.75, so the table grows to 9 buckets and keeps its three keys. */
  method ExpandWithoutCollision() returns (capacity: int, n: int, v1: Result<string>, v2: Result<string>, v3: Result<string>)
    ensures capacity == 9 && n == 3
    ensures v1 == Success("one") && v2 == Success("two") && v3 == Success("three")
  {
    var table := OneTwoInFour();
    assert LoadFactor(3, 4) >= 0.75;
    var r3 := table.Insert(Some(3), "three");
    capacity := table.GetCapacity();
    n := table.numKeys;
    v1 := table.Get(Some(1));
    v2 := table.Get(Some(2));
    v3 := table.Get(Some(3));
  }

  /** A table of 4 buckets, threshold 0.75, after inserting 1. */
  method OneInFour() returns (table: HashTable<string>)
    ensures table.Valid() && fresh(table) && fresh(table.hashTable)
    ensures table.capacity == 4 && table.numKeys == 1 && table.loadFactorThreshold == 0.75
    ensures table.Contents == map[1 := "one"]
    ensures table.hashTable[..] == [[], [Entry(1, "one")], [], []]
  {
    table := new HashTable<string>(4, 0.75);
    ghost var empty: Chain<string> := [];
    ghost var t0 := [empty, empty, empty, empty];
    assert table.hashTable[..] == t0;
    assert LoadFactor(1, 4) < 0.75 && HashFunction(1, 4) == 1;
    assert t0[1] + [Entry(1, "one")] == [Entry(1, "one")];
    var r1 := table.Insert(Some(1), "one");
  }

  /** The table of OneInFour after inserting 5, which collides with 1 in
      bucket 1. */
  method CollideTwo() returns (table: HashTable<string>)
    ensures table.Valid() && fresh(table) && fresh(table.hashTable)
    ensures table.capacity == 4 && table.numKeys == 2 && table.loadFactorThreshold == 0.75
    ensures table.Contents == map[1 := "one", 5 := "one"]
    ensures table.hashTable[..] == [[], [Entry(1, "one"), Entry(5, "one")], [], []]
  {
    table := OneInFour();
    ghost var t1 := table.hashTable[..];
    assert LoadFactor(2, 4) < 0.75 && HashFunction(5, 4) == 1;
    assert t1[1] + [Entry(5, "one")] == [Entry(1, "one"), Entry(5, "one")];
    var r2 := table.Insert(Some(5), "one");
  }

  /** Keys 1, 5 and 9 share bucket 1 of 4; after the resize to 9 buckets
      they sit in buckets 1, 5 and 0. */
  method ExpandWithCollision() returns (capacity: int, n: int, buckets: seq<Chain<string>>)
    ensures capacity == 9 && n == 3
    ensures |buckets| == 9
    ensures buckets[0] == [Entry(9, "one")] && buckets[1] == [Entry(1, "one")]
    ensures buckets[5] == [Entry(5, "one")]
  {
    var table := CollideTwo();
    assert LoadFactor(3, 4) >= 0.75;
    ghost var before := table.hashTable[..];
    var r3 := table.Insert(Some(9), "one");
    CollisionRehash(before);
    capacity := table.GetCapacity();
    n := table.numKeys;
    buckets := table.hashTable[..];
  }

  /** Appending key 9 to bucket 1 of the table holding 1 -> 5 in bucket 1 of
      4 and rehashing into 9 buckets places 9, 1 and 5 in buckets 0, 1 and 5. */
  lemma CollisionRehash(t: seq<Chain<string>>)
    requires t == [[], [Entry(1, "one"), Entry(5, "one")], [], []]
    ensures var r := Rehash(AppendEntry(t, Entry(9, "one")), 9);
      r[0] == [Entry(9, "one")] && r[1] == [Entry(1, "one")] && r[5] == [Entry(5, "one")]
  {
    var empty: Chain<string> := [];
    var nodes := [Entry(1, "one"), Entry(5, "one"), Entry(9, "one")];
    assert HashFunction(9, 4) == 1;
    assert t[1] + [Entry(9, "one")] == nodes;
    assert AppendEntry(t, Entry(9, "one")) == [empty, nodes, empty, empty];
    assert [empty, nodes, empty, empty][..3] == [empty, nodes, empty];
    assert [empty, nodes, empty][..2] == [empty, nodes];
    assert [empty, nodes][..1] == [empty] && [empty][..0] == [];
    assert Flatten([empty]) == [];
    assert Flatten([empty, nodes]) == nodes;
    assert Flatten([empty, nodes, empty]) == nodes;
    assert Flatten([empty, nodes, empty, empty]) == nodes;
    assert HashFunction(1, 9) == 1 && HashFunction(5, 9) == 5 && HashFunction(9, 9) == 0;
    assert nodes[..2] == [Entry(1, "one"), Entry(5, "one")];
    assert nodes[..2][..1] == [Entry(1, "one")];
    assert Bucket(nodes, 0, 9) == [Entry(9, "one")];
    assert Bucket(nodes, 1, 9) == [Entry(1, "one")];
    assert Bucket(nodes, 5, 9) == [Entry(5, "one")];
  }
}
