/** The separate-chaining hash table of HashTable.java: an array of buckets,
    each the chain of the (key, value) nodes whose key hashes to it. When an
    insertion makes the load factor reach the threshold, the table grows to
    twice its capacity plus one and every node is inserted again. */
module HashTables {
  import opened Outcomes
  import opened Hashing
  import opened Chains

  /** The collision-resolution schemes the table's interface distinguishes. */
  datatype CollisionScheme =
    | LinearProbe | QuadraticProbe | DoubleHashing
    | ArrayOfArrays | ArrayOfLinkedNodes | ArrayOfSearchTrees
    | LinkedNodesOfArrays | LinkedNodesOfLinkedNodes | LinkedNodesOfSearchTrees

  /** The interface's numbering of the schemes: open addressing first, then
      the chained buckets. */
  function SchemeCode(s: CollisionScheme): (code: int)
    ensures 1 <= code <= 9
    ensures code <= 3 <==> s.LinearProbe? || s.QuadraticProbe? || s.DoubleHashing?
  {
    match s
    case LinearProbe => 1
    case QuadraticProbe => 2
    case DoubleHashing => 3
    case ArrayOfArrays => 4
    case ArrayOfLinkedNodes => 5
    case ArrayOfSearchTrees => 6
    case LinkedNodesOfArrays => 7
    case LinkedNodesOfLinkedNodes => 8
    case LinkedNodesOfSearchTrees => 9
  }

  /** `(double) numKeys / capacity`, as an exact ratio. */
  function LoadFactor(keys: int, capacity: int): (f: real)
    requires capacity > 0
    ensures f * (capacity as real) == keys as real
  {
    keys as real / capacity as real
  }

  /** A resize triggered by the insertion that brought the count to `n`
      re-inserts the nodes one by one into `2 * c + 1` buckets. Provided the
      count before that insertion was below the threshold and
      `t * (c0 + 1) >= 1` for a capacity `c0 <= c` (the initial one), none of
      those re-insertions reaches the threshold again, so the insertion path
      used for them never starts a second resize. */
  lemma ReinsertNeverTriggersResize(n: int, c: int, c0: int, t: real, i: int, newCap: int)
    requires 0 < c0 <= c && t > 0.0 && t * ((c0 + 1) as real) >= 1.0
    requires LoadFactor(n - 1, c) < t
    requires 0 <= i <= n && newCap == 2 * c + 1
    ensures LoadFactor(i, newCap) < t
  {
    var cr := c as real;
    var d := newCap as real;
    assert t * ((c + 1) as real) >= 1.0 by {
      MulMonotone(t, (c0 + 1) as real, (c + 1) as real);
    }
    BelowThreshold((n - 1) as real, cr, t);
    assert t * d == t * cr + t * (cr + 1.0);
    BelowThreshold(i as real, d, t);
  }

  /** A ratio is below the threshold exactly when the numerator is below the
      threshold times the denominator. */
  lemma BelowThreshold(x: real, d: real, t: real)
    requires d > 0.0
    ensures x / d < t <==> x < t * d
  {
    var q := x / d;
    assert q * d == x;
    if q < t {
      MulStrict(q, t, d);
    } else {
      MulMonotone(d, t, q);
    }
  }

  /** Multiplying by a non-negative factor keeps the order. */
  lemma MulMonotone(a: real, x: real, y: real)
    requires a >= 0.0 && x <= y
    ensures a * x <= a * y
  {
    assert a * y - a * x == a * (y - x);
  }

  /** Multiplying by a positive factor keeps a strict order. */
  lemma MulStrict(x: real, y: real, d: real)
    requires d > 0.0 && x < y
    ensures x * d < y * d
  {
    assert y * d - x * d == (y - x) * d;
  }

  /** Removing a key does not raise the load factor. */
  lemma LoadFactorDecreases(n: int, c: int, t: real)
    requires c > 0 && LoadFactor(n, c) < t
    ensures LoadFactor(n - 1, c) < t
  {
    BelowThreshold(n as real, c as real, t);
    BelowThreshold((n - 1) as real, c as real, t);
  }

  class HashTable<V> {
    /** The buckets; `hashTable[b]` is the chain of bucket `b`, head first. */
    var hashTable: array<Chain<V>>
    var numKeys: int
    var capacity: int
    /** Fixed at construction; the source never assigns it again. */
    const loadFactorThreshold: real
    /** The capacity the table was built with; capacity never drops below it. */
    ghost const initialCapacity: int
    /** The key-value pairs the table holds. */
    ghost var Contents: map<int, V>

    /** The structure every operation keeps, also in the middle of an
        insertion: the array has `capacity` buckets, every node sits in the
        bucket its key hashes to, no key occurs twice, looking a key up in
        its bucket gives `Contents`, and `numKeys` counts both the nodes and
        the keys. The threshold condition rules out a resize that triggers a
        further resize (see ReinsertNeverTriggersResize). */
    ghost predicate WellFormed()
      reads this, hashTable
    {
      && 0 < initialCapacity <= capacity
      && hashTable.Length == capacity
      && loadFactorThreshold > 0.0
      && loadFactorThreshold * ((initialCapacity + 1) as real) >= 1.0
      && ChainsValid(hashTable[..], Contents)
      && numKeys == |Flatten(hashTable[..])|
      && numKeys == |Contents|
    }

    /** The invariant between public operations: well-formed, and the load
        factor below the threshold. */
    ghost predicate Valid()
      reads this, hashTable
    {
      WellFormed() && LoadFactor(numKeys, capacity) < loadFactorThreshold
    }

    /** An empty table of `initialCapacity` buckets. */
    constructor (initialCapacity: int, loadFactorThreshold: real)
      requires initialCapacity > 0 && loadFactorThreshold > 0.0
      requires loadFactorThreshold * ((initialCapacity + 1) as real) >= 1.0
      ensures Valid() && fresh(hashTable)
      ensures capacity == initialCapacity && this.loadFactorThreshold == loadFactorThreshold
      ensures numKeys == 0 && Contents == map[]
      ensures forall b :: 0 <= b < capacity ==> hashTable[b] == []
    {
      capacity := initialCapacity;
      this.initialCapacity := initialCapacity;
      this.loadFactorThreshold := loadFactorThreshold;
      hashTable := new Chain<V>[initialCapacity](_ => []);
      numKeys := 0;
      Contents := map[];
      new;
      EmptyValid(hashTable[..]);
    }

    /** The no-argument constructor: 11 buckets, threshold 0.75. */
    constructor Default()
      ensures Valid() && fresh(hashTable)
      ensures capacity == 11 && loadFactorThreshold == 0.75
      ensures numKeys == 0 && Contents == map[]
      ensures forall b :: 0 <= b < capacity ==> hashTable[b] == []
    {
      hashTable := new Chain<V>[11](_ => []);
      capacity := 11;
      initialCapacity := 11;
      loadFactorThreshold := 0.75;
      numKeys := 0;
      Contents := map[];
      new;
      EmptyValid(hashTable[..]);
    }

    /** A key is found in its own bucket exactly when the table holds it,
        with the value the table maps it to. */
    lemma InBucket(k: int)
      requires WellFormed()
      ensures MapGet(Contents, k) == Lookup(hashTable[HashFunction(k, capacity)], k)
    {
      assert hashTable[..][HashFunction(k, capacity)] == hashTable[HashFunction(k, capacity)];
    }

    /** `contains`: walks the key's chain from the head. */
    method Contains(key: int) returns (found: bool)
      requires WellFormed()
      ensures found <==> key in Contents
    {
      var position := HashFunction(key, capacity);
      var chain := hashTable[position];
      InBucket(key);
      if |chain| == 0 {
        return false;
      }
      var node := 0;
      while node < |chain|
        invariant 0 <= node <= |chain|
        invariant Lookup(chain[node..], key) == Lookup(chain, key)
      {
        if chain[node].key == key {
          return true;
        }
        assert chain[node..][1..] == chain[node + 1..];
        node := node + 1;
      }
      return false;
    }

    /** `get`: the value stored under `key`, walking its chain from the head. */
    method Get(key: Option<int>) returns (r: Result<V>)
      requires WellFormed()
      ensures key.None? ==> r == Failure(IllegalNullKey)
      ensures key.Some? && key.value in Contents ==> r == Success(Contents[key.value])
      ensures key.Some? && key.value !in Contents ==> r == Failure(KeyNotFound)
    {
      if key.None? {
        return Failure(IllegalNullKey);
      }
      var k := key.value;
      var position := HashFunction(k, capacity);
      var chain := hashTable[position];
      InBucket(k);
      var node := 0;
      while node < |chain|
        invariant 0 <= node <= |chain|
        invariant Lookup(chain[node..], k) == Lookup(chain, k)
      {
        if chain[node].key == k {
          return Success(chain[node].value);
        }
        assert chain[node..][1..] == chain[node + 1..];
        node := node + 1;
      }
      return Failure(KeyNotFound);
    }

    /** Links a node for a key the table does not hold at the tail of its
        bucket and counts it (the body of `insert` after its checks). */
    method InsertEntry(e: Entry<V>)
      requires WellFormed() && e.key !in Contents
      modifies this, hashTable
      ensures WellFormed()
      ensures hashTable == old(hashTable) && hashTable[..] == AppendEntry(old(hashTable[..]), e)
      ensures Contents == old(Contents)[e.key := e.value] && numKeys == old(numKeys) + 1
      ensures capacity == old(capacity)
    {
      AppendEntryValid(hashTable[..], Contents, e);
      AppendNode(e);
      Contents := Contents[e.key := e.value];
    }

    /** Links a new tail node `e` into the bucket its key hashes to and counts
        it, checking nothing: what `insert` does once its checks have passed. */
    method AppendNode(e: Entry<V>)
      requires 0 < capacity == hashTable.Length
      modifies this, hashTable
      ensures hashTable == old(hashTable) && capacity == old(capacity) && Contents == old(Contents)
      ensures hashTable[..] == AppendEntry(old(hashTable[..]), e) && numKeys == old(numKeys) + 1
    {
      var position := HashFunction(e.key, capacity);
      SetChain(position, hashTable[position] + [e]);
      numKeys := numKeys + 1;
    }

    /** `expandArray`: allocates `2 * capacity + 1` empty buckets and inserts
        every node again, bucket 0 first and head to tail within a bucket. */
    method ExpandArray()
      requires WellFormed()
      requires LoadFactor(numKeys - 1, capacity) < loadFactorThreshold
      modifies this
      ensures Valid() && fresh(hashTable)
      ensures capacity == 2 * old(capacity) + 1
      ensures hashTable[..] == Rehash(old(hashTable[..]), capacity)
      ensures Contents == old(Contents) && numKeys == old(numKeys)
    {
      var currentHashTable := hashTable;
      ghost var oldChains := hashTable[..];
      ghost var oldCap := capacity;
      capacity := 2 * capacity + 1;
      hashTable := new Chain<V>[capacity](_ => []);
      numKeys := 0;
      ReinsertAll(currentHashTable, oldCap);
      ReinsertNeverTriggersResize(old(numKeys), oldCap, initialCapacity, loadFactorThreshold, numKeys, capacity);
      RehashValid(oldChains, Contents, capacity);
    }

    /** The outer loop of `expandArray`: visits the old buckets in order and
        re-inserts each chain into the new, initially empty, buckets. */
    method ReinsertAll(currentHashTable: array<Chain<V>>, ghost oldCap: int)
      requires currentHashTable != hashTable && currentHashTable.Length == oldCap
      requires 0 < initialCapacity <= oldCap && capacity == 2 * oldCap + 1
      requires loadFactorThreshold > 0.0 && loadFactorThreshold * ((initialCapacity + 1) as real) >= 1.0
      requires LoadFactor(|Flatten(currentHashTable[..])| - 1, oldCap) < loadFactorThreshold
      requires WellPlaced(currentHashTable[..])
      requires forall b :: 0 <= b < oldCap ==> DistinctKeys(currentHashTable[b])
      requires hashTable.Length == capacity && numKeys == 0
      requires forall b :: 0 <= b < capacity ==> hashTable[b] == []
      modifies this, hashTable
      ensures hashTable == old(hashTable) && capacity == old(capacity) && Contents == old(Contents)
      ensures hashTable[..] == Rehash(currentHashTable[..], capacity)
      ensures numKeys == |Flatten(currentHashTable[..])|
    {
      ghost var oldChains := currentHashTable[..];
      ghost var n := |Flatten(oldChains)|;
      EmptyFlatten(hashTable[..]);
      assert hashTable[..] == Distribute([], capacity);
      assert oldChains[..0] == [];
      forall i | 0 <= i <= n ensures LoadFactor(i, capacity) < loadFactorThreshold {
        ReinsertNeverTriggersResize(n, oldCap, initialCapacity, loadFactorThreshold, i, capacity);
      }
      for i := 0 to currentHashTable.Length
        invariant hashTable == old(hashTable) && capacity == old(capacity) && Contents == old(Contents)
        invariant currentHashTable[..] == oldChains
        invariant hashTable[..] == Distribute(Flatten(oldChains[..i]), capacity)
        invariant numKeys == |Flatten(oldChains[..i])|
      {
        FlattenPrefix(oldChains, i);
        FlattenPrefixLength(oldChains, i + 1);
        FlattenDistinct(oldChains, i + 1);
        ReinsertChain(currentHashTable[i], Flatten(oldChains[..i]), n);
      }
      assert oldChains[..oldCap] == oldChains;
    }

    /** The inner loop of `expandArray`: re-inserts the nodes of one old
        chain, head to tail, at the tails of their new buckets. The source
        does it through `insert`, whose checks are asserted at each step:
        the key is not yet in its new bucket, since no key is visited twice
        (FlattenDistinct, DistributeAbsent), and the load factor stays below
        the threshold (ReinsertNeverTriggersResize). */
    method ReinsertChain(chain: Chain<V>, ghost done: Chain<V>, ghost n: int)
      requires 0 < capacity == hashTable.Length
      requires forall i :: 0 <= i <= n ==> LoadFactor(i, capacity) < loadFactorThreshold
      requires |done| + |chain| <= n && DistinctKeys(done + chain)
      requires hashTable[..] == Distribute(done, capacity) && numKeys == |done|
      modifies this, hashTable
      ensures hashTable == old(hashTable) && capacity == old(capacity) && Contents == old(Contents)
      ensures hashTable[..] == Distribute(done + chain, capacity) && numKeys == |done + chain|
    {
      var node := 0;
      assert done + chain[..0] == done;
      while node < |chain|
        invariant 0 <= node <= |chain|
        invariant hashTable == old(hashTable) && capacity == old(capacity) && Contents == old(Contents)
        invariant hashTable[..] == Distribute(done + chain[..node], capacity)
        invariant numKeys == |done| + node
      {
        var e := chain[node];
        PrefixSnoc(done, chain, node);
        assert (done + chain)[..|done| + node + 1] == (done + chain[..node]) + [e];
        DistributeAbsent(done + chain[..node], e, capacity);
        assert Lookup(hashTable[HashFunction(e.key, capacity)], e.key) == None;
        DistributeSnoc(done + chain[..node], e, capacity);
        AppendNode(e);
        assert !(LoadFactor(numKeys, capacity) >= loadFactorThreshold);
        node := node + 1;
      }
      assert chain[..node] == chain;
    }

    /** `insert`: refuses a null key and a key already present, leaving the
        table as it was; otherwise appends the pair at the tail of its bucket
        and, if the load factor has reached the threshold, resizes. */
    method Insert(key: Option<int>, value: V) returns (r: Status)
      requires Valid()
      modifies this, hashTable
      ensures Valid()
      ensures key.None? ==> r == Fail(IllegalNullKey)
      ensures key.Some? && key.value in old(Contents) ==> r == Fail(DuplicateKey)
      ensures r.Fail? ==> unchanged(this) && unchanged(hashTable)
      ensures key.Some? && key.value !in old(Contents) ==>
                && r == Pass
                && Contents == old(Contents)[key.value := value]
                && numKeys == old(numKeys) + 1
      ensures key.Some? && r == Pass ==>
                var appended := AppendEntry(old(hashTable[..]), Entry(key.value, value));
                if LoadFactor(old(numKeys) + 1, old(capacity)) >= loadFactorThreshold then
                  && capacity == 2 * old(capacity) + 1
                  && fresh(hashTable)
                  && hashTable[..] == Rehash(appended, capacity)
                else
                  && capacity == old(capacity)
                  && hashTable == old(hashTable)
                  && hashTable[..] == appended
    {
      if key.None? {
        return Fail(IllegalNullKey);
      }
      var k := key.value;
      var found := Contains(k);
      if found {
        return Fail(DuplicateKey);
      }
      InsertEntry(Entry(k, value));
      if GetLoadFactor() >= loadFactorThreshold {
        ExpandArray();
      }
      return Pass;
    }

    /** `remove`: unlinks the node of `key`, either the head of its bucket or
        an interior node, and reports whether there was one. */
    method Remove(key: Option<int>) returns (r: Result<bool>)
      requires Valid()
      modifies this, hashTable
      ensures Valid()
      ensures hashTable == old(hashTable) && capacity == old(capacity)
      ensures key.None? ==> r == Failure(IllegalNullKey) && unchanged(this) && unchanged(hashTable)
      ensures key.Some? ==> r == Success(key.value in old(Contents))
      ensures key.Some? ==> Contents == old(Contents) - {key.value}
      ensures key.Some? ==> hashTable[..] == RemoveFromChains(old(hashTable[..]), key.value)
      ensures r == Success(false) ==> unchanged(this) && unchanged(hashTable)
      ensures r == Success(true) ==> numKeys == old(numKeys) - 1
    {
      if key.None? {
        return Failure(IllegalNullKey);
      }
      var k := key.value;
      var position := HashFunction(k, capacity);
      var chain := hashTable[position];
      if |chain| == 0 {
        NotStored(k);
        return Success(false);
      } else if chain[0].key == k {
        Unlink(position, 0, k);
        return Success(true);
      }
      // Walk until the next node holds the key or the chain ends.
      var node := 0;
      while node + 1 < |chain| && chain[node + 1].key != k
        invariant 0 <= node < |chain|
        invariant forall j :: 0 <= j <= node ==> chain[j].key != k
      {
        node := node + 1;
      }
      if node + 1 < |chain| {
        Unlink(position, node + 1, k);
        return Success(true);
      }
      NotStored(k);
      return Success(false);
    }

    /** A key none of whose bucket's nodes carries it is not in the table, and
        removing it leaves the buckets as they are. */
    lemma NotStored(k: int)
      requires WellFormed()
      requires forall i :: 0 <= i < |hashTable[HashFunction(k, capacity)]| ==> hashTable[HashFunction(k, capacity)][i].key != k
      ensures k !in Contents && Contents - {k} == Contents
      ensures RemoveFromChains(hashTable[..], k) == hashTable[..]
    {
      assert MapGet(Contents, k) == Lookup(hashTable[..][HashFunction(k, capacity)], k);
      RemoveEntryValid(hashTable[..], Contents, k);
    }

    /** Unlinks node `node` of bucket `position`, which holds `k`, keeping
        the load factor below the threshold. */
    method Unlink(position: int, node: int, ghost k: int)
      requires Valid()
      requires 0 <= position < capacity && 0 <= node < |hashTable[position]|
      requires hashTable[position][node].key == k
      modifies this, hashTable
      ensures Valid()
      ensures hashTable == old(hashTable) && capacity == old(capacity)
      ensures k in old(Contents) && Contents == old(Contents) - {k}
      ensures hashTable[..] == RemoveFromChains(old(hashTable[..]), k)
      ensures numKeys == old(numKeys) - 1
    {
      LoadFactorDecreases(numKeys, capacity, loadFactorThreshold);
      UnlinkNode(position, node, k);
    }

    /** Unlinks node `node` of bucket `position`: the bucket slot now points
        past it when it is the head, its predecessor's link skips it
        otherwise. Its key leaves the table and the count drops by one. */
    method UnlinkNode(position: int, node: int, ghost k: int)
      requires WellFormed()
      requires 0 <= position < capacity && 0 <= node < |hashTable[position]|
      requires hashTable[position][node].key == k
      modifies this, hashTable
      ensures WellFormed()
      ensures hashTable == old(hashTable) && capacity == old(capacity)
      ensures k in old(Contents) && Contents == old(Contents) - {k}
      ensures hashTable[..] == RemoveFromChains(old(hashTable[..]), k)
      ensures numKeys == old(numKeys) - 1
    {
      ghost var chains := hashTable[..];
      var chain := hashTable[position];
      assert chain[node] in chains[position];
      assert MapGet(Contents, k) == Lookup(chain, k);
      SpliceIsRemoveKey(chain, node);
      RemoveEntryValid(chains, Contents, k);
      SetChain(position, chain[..node] + chain[node + 1..]);
      numKeys := numKeys - 1;
      Contents := Contents - {k};
    }

    /** Points bucket slot `position` at the chain `c`. */
    method SetChain(position: int, c: Chain<V>)
      requires 0 <= position < hashTable.Length
      modifies hashTable
      ensures hashTable[..] == old(hashTable[..])[position := c]
    {
      hashTable[position] := c;
    }

    /** `numKeys()`: the number of keys, which is also the number of nodes. */
    function NumKeys(): (n: int)
      requires WellFormed()
      reads this, hashTable
      ensures n == |Contents| && n == |Flatten(hashTable[..])|
    {
      numKeys
    }

    /** `getLoadFactorThreshold()`: the threshold fixed at construction. */
    function GetLoadFactorThreshold(): (t: real)
      requires WellFormed()
      reads this, hashTable
      ensures t > 0.0
      ensures Valid() ==> LoadFactor(numKeys, capacity) < t
    {
      loadFactorThreshold
    }

    /** `getLoadFactor()`: keys per bucket. */
    function GetLoadFactor(): (f: real)
      requires WellFormed()
      reads this, hashTable
      ensures f * (capacity as real) == |Contents| as real
      ensures f >= 0.0
      ensures Valid() ==> f < loadFactorThreshold
    {
      numKeys as real / capacity as real
    }

    /** `getCapacity()`: the number of buckets. */
    function GetCapacity(): (c: int)
      requires WellFormed()
      reads this, hashTable
      ensures c > 0 && c == hashTable.Length
    {
      capacity
    }

    /** `getCollisionResolution()`: this table is an array of linked nodes. */
    function GetCollisionResolution(): (code: int)
      ensures code == SchemeCode(ArrayOfLinkedNodes)
    {
      5
    }
  }
}
