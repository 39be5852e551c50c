# A verified model of a separate-chaining hash table

`HashTable.java` is a generic hash table that resolves collisions by
chaining: an array of buckets, each the head of a singly linked list of
`ListNode`s holding a key, a value and a link to the next node. A key goes
to bucket `Math.abs(key.hashCode() % capacity)`. A new node is linked at the
tail of its bucket's chain. When an insertion makes the load factor
`numKeys / capacity` reach the threshold, `expandArray` allocates
`2 * capacity + 1` buckets and inserts every node again, bucket by bucket and
head to tail. `remove` unlinks a node, either from the bucket slot or from
its predecessor. `get` walks the chain. A null key makes `insert`, `remove`
and `get` raise `IllegalNullKeyException`. `insert` raises
`DuplicateKeyException` for a key already present. `get` raises
`KeyNotFoundException` for a missing key, while `remove` returns false for
one.

The model has five modules:

- `Outcomes` (`outcomes.dfy`): `Option` for a key that may be null. It also
  has the exceptions as values: `Result` for an operation that returns a
  value or throws, and `Status` for one that returns nothing or throws.
- `Hashing` (`hashing.dfy`): Java's truncating `%`, `Math.abs` and the
  bucket index.
- `Chains` (`chains.dfy`): the buckets as values. A chain is the sequence of
  its nodes from head to tail. This module holds the functions that specify
  every update: append at the tail, remove a key, rehash. It also holds the
  well-formedness predicate `ChainsValid` and the lemmas showing that every
  update preserves it.
- `HashTables` (`hash_table.dfy`): the class `HashTable`. Its fields are the
  source's fields plus two ghost fields the source does not have: the map
  `Contents` and the capacity the table was built with, `initialCapacity`.
  The bucket array is an `array` whose slots the methods assign. Each
  method is proved against the `Chains` functions. `Valid()` states:
  - every node sits in the bucket its key hashes to;
  - no key occurs twice;
  - `Contents` is what the chains store;
  - `numKeys` is both the node count and the key count;
  - the load factor is below the threshold.

  The constructors establish `Valid()`. The public operations that change
  the table (`Insert`, `Remove`) keep it, and `Contains` and `Get` change
  nothing. The internal steps of an insertion, a removal or a resize keep
  only the structural part, `WellFormed()` (everything but the load-factor
  bound), or their own loop invariants.
- `Scenarios` (`scenarios.dfy`): the unit tests of `HashTableTest.java`, one
  method each. Each method returns what the test observes, and its `ensures`
  states the outcome the test expects.

Keys are `int`. The tests use `Integer` keys, whose `hashCode()` is the
value itself. A null key is `None`.

## Model

| member | source | states |
|---|---|---|
| Hashing.JavaDiv | HashTable.java:78 | Java's `/` truncates toward zero, so the quotient has the sign of the key. Together with JavaRem it satisfies JavaDivRem |
| Hashing.JavaRem | HashTable.java:78 | Java's `%` is smaller than the capacity in magnitude and takes the sign of the key |
| Hashing.JavaDivRem | HashTable.java:78 | Java's quotient and remainder recombine to the key (section 15.17.3 of the Java Language Specification) |
| Hashing.Abs | HashTable.java:78 | `Math.abs` returns the value or its negation, never negative |
| Hashing.HashFunction | HashTable.java:77-79 | the bucket index lies in `[0, capacity)` for every key, negative ones included. It is `key % capacity` for a non-negative key and `(-key) % capacity` for a negative one |
| Chains.DistinctKeys | HashTable.java:147-149 | no two nodes of a chain share a key: what the duplicate check of `insert` keeps |
| Chains.WellPlaced | HashTable.java:152-165 | every node sits in the bucket its key hashes to: where `insert` links it |
| Chains.Represents | HashTable.java:216-235 | looking a key up in its bucket gives exactly what the map holds for it |
| Chains.ChainsValid | HashTable.java:40-42 | the buckets are well placed, each chain has distinct keys, and they represent the map |
| Chains.Flatten | HashTable.java:95-106 | the order in which `expandArray` visits the nodes: bucket 0 first, head to tail. Its membership facts are FlattenContains and FlattenSource |
| Chains.Bucket | HashTable.java:95-106 | the re-inserted nodes that land in bucket `b`, in order. Each of them hashes to `b` |
| Chains.Distribute | HashTable.java:92-106 | the buckets obtained by re-inserting nodes one by one into `n` empty buckets. There are `n` of them |
| Chains.Rehash | HashTable.java:88-107 | the buckets a resize into `n` buckets builds from the old ones. There are `n` of them |
| Chains.AppendEntry | HashTable.java:150-165 | the buckets after `insert` links a node at the tail of the bucket its key hashes to. The bucket count does not change |
| Chains.RemoveFromChains | HashTable.java:185-205 | the buckets after `remove` unlinks a key from its bucket. The bucket count does not change |
| Chains.Lookup | HashTable.java:123-131 | walking a chain from the head finds a node with the key exactly when some node carries it, and what it finds is a node of the chain |
| Chains.RemoveKey | HashTable.java:186-205 | the chain after unlinking key `k` holds exactly the nodes with another key, and no more nodes than before |
| Chains.BucketMembers | HashTable.java:95-106 | after re-insertion, bucket `b` holds exactly the nodes whose key hashes to `b` |
| Chains.LookupSnoc | HashTable.java:159-163 | linking a node at the tail hides no existing node. The new node is found only when its key was absent |
| Chains.RemoveKeyLookup | HashTable.java:186-205 | after unlinking `k`, `k` is absent and every other key is found as before |
| Chains.RemoveKeyAbsent | HashTable.java:186-205 | unlinking a key the chain does not hold leaves the chain unchanged |
| Chains.DistinctTail | HashTable.java:189-194 | in a chain with distinct keys, no node after the head repeats the head's key |
| Chains.RemoveKeyDistinct | HashTable.java:196-202 | unlinking keeps the keys distinct and drops one node exactly when the key was present |
| Chains.SpliceIsRemoveKey | HashTable.java:189-201 | moving the bucket slot past the head, or a predecessor's link past its successor, is the chain with that key removed |
| Chains.FlattenUpdate | HashTable.java:154-165 | replacing one bucket changes the node count by the difference in that bucket's length |
| Chains.FlattenPrefix | HashTable.java:95-106 | visiting one more old bucket appends its chain to the re-insertion order |
| Chains.DistributeSnoc | HashTable.java:102 | re-inserting one more node appends it at the tail of its new bucket |
| Chains.EmptyValid | HashTable.java:63-68 | a fresh array of empty buckets is a well-formed table holding nothing |
| Chains.EmptyFlatten | HashTable.java:92-93 | empty buckets hold no nodes |
| Chains.AppendEntryValid | HashTable.java:150-165 | linking a new key at the tail of its bucket keeps the table well formed, maps the key to its value, and adds one node |
| Chains.RemoveEntryValid | HashTable.java:180-206 | unlinking a key keeps the table well formed and removes the key from the map. It removes one node when the key was present and changes nothing otherwise |
| Chains.StoredEntries | HashTable.java:40-41 | every node's key maps to that node's value, and every mapped key has its node in bucket `hashFunction(key)` |
| Chains.NoDuplicateKeys | HashTable.java:147-149 | no key is stored at two places anywhere in the table |
| Chains.FlattenPrefixLength | HashTable.java:95-106 | part of the old buckets holds no more nodes than all of them |
| Chains.FlattenContains | HashTable.java:95-106 | a resize visits every node of the old table |
| Chains.FlattenSource | HashTable.java:95-106 | every node a resize visits comes from a bucket of the old table |
| Chains.DistinctConcat | HashTable.java:95-106 | joining two key-disjoint chains with distinct keys keeps them distinct |
| Chains.FlattenDistinct | HashTable.java:95-106 | no key is visited twice during a resize |
| Chains.BucketDistinct | HashTable.java:95-106 | a new bucket built by a resize has distinct keys |
| Chains.DistributeLength | HashTable.java:90-106 | re-insertion keeps every node, so the count restarted at 0 ends at the old count |
| Chains.DistributeAbsent | HashTable.java:101-104 | when a node's key is not among the nodes already re-inserted, it is absent from its new bucket, so the duplicate check of the `insert` that `expandArray` calls passes |
| Chains.RehashValid | HashTable.java:88-107 | a resize into any positive capacity rebuilds a well-formed table of the same map with the same number of nodes |
| HashTables.LoadFactor | HashTable.java:264 | the load factor times the capacity is the number of keys |
| HashTables.SchemeCode | HashTable.java:283-295 | the nine schemes are numbered 1 to 9, and the codes up to 3 are exactly the open-addressing ones |
| HashTables.ReinsertNeverTriggersResize | HashTable.java:88-107 | each re-insertion during a resize leaves the load factor of the `2c+1` buckets below the threshold. So the `insert` that `expandArray` calls never starts a second resize |
| HashTables.LoadFactorDecreases | HashTable.java:189-201 | decrementing `numKeys` keeps the load factor below the threshold |
| HashTables.HashTable.WellFormed | HashTable.java:40-43 | the array has `capacity` buckets, the buckets are a valid chained table of `Contents`, and `numKeys` counts both the nodes and the keys. The threshold condition rules out a nested resize |
| HashTables.HashTable.Valid | HashTable.java:166-169 | well formed, with the load factor below the threshold, as every public operation leaves it |
| HashTables.HashTable.constructor | HashTable.java:63-68 | a valid, empty table with the given capacity and threshold, all buckets empty |
| HashTables.HashTable.Default | HashTable.java:49-55 | a valid, empty table of 11 buckets with threshold 0.75 |
| HashTables.HashTable.InBucket | HashTable.java:116-123 | a key is found in the bucket it hashes to exactly when the table holds it, with the value the table maps it to |
| HashTables.HashTable.Contains | HashTable.java:115-132 | true exactly when the key is in the table |
| HashTables.HashTable.Get | HashTable.java:216-235 | a null key gives IllegalNullKey, a stored key gives its value, and a missing key gives KeyNotFound. It changes nothing |
| HashTables.HashTable.InsertEntry | HashTable.java:150-165 | links a new key at the tail of its bucket. The table stays well formed, the key now maps to its value, `numKeys` grows by one, and no other bucket changes |
| HashTables.HashTable.AppendNode | HashTable.java:150-165 | the buckets become the old ones with the node appended to bucket `hashFunction(key)`, and the count grows by one |
| HashTables.HashTable.ExpandArray | HashTable.java:88-107 | capacity becomes `2 * old + 1` in a fresh array, and the buckets are the old nodes re-inserted in visiting order. The table is valid and keeps its map and `numKeys` |
| HashTables.HashTable.ReinsertAll | HashTable.java:95-106 | after visiting every old bucket in order, the new buckets are the rehash of the old table and the count is the old node count |
| HashTables.HashTable.ReinsertChain | HashTable.java:101-104 | re-inserting one old chain head to tail appends each node to its new bucket and counts it. At each step the duplicate check of `insert` finds the key absent, and its load-factor check stays false |
| HashTables.HashTable.Insert | HashTable.java:141-170 | null gives IllegalNullKey and a present key gives DuplicateKey, both with no change. Otherwise the key maps to its value and `numKeys` grows by one. The node is appended to the tail of its bucket with every other bucket unchanged, and, when the load factor reaches the threshold, the table is rehashed into `2 * old + 1` buckets. The table stays valid |
| HashTables.HashTable.Remove | HashTable.java:180-206 | null gives IllegalNullKey with no change. Otherwise the result is true exactly when the key was present. The key leaves the map and its bucket, every other node keeps its bucket and order, `numKeys` drops by one on true, nothing changes on false, and the capacity never changes |
| HashTables.HashTable.NotStored | HashTable.java:185-205 | a key that no node of its bucket carries is not in the table, and removing it changes nothing |
| HashTables.HashTable.Unlink | HashTable.java:189-201 | unlinking a node of the key keeps the table valid, removes the key, and decrements `numKeys` |
| HashTables.HashTable.UnlinkNode | HashTable.java:189-201 | the bucket slot or the predecessor's link skips the node. The table stays well formed, the buckets are the old ones with the key removed, and the count drops by one |
| HashTables.HashTable.SetChain | HashTable.java:154-155 | assigning one bucket slot leaves every other slot unchanged |
| HashTables.HashTable.NumKeys | HashTable.java:243-245 | the key count is both the number of keys held and the number of nodes in the chains |
| HashTables.HashTable.GetLoadFactorThreshold | HashTable.java:253-255 | the threshold is positive, and the load factor of a valid table is below it |
| HashTables.HashTable.GetLoadFactor | HashTable.java:263-265 | the load factor times the capacity is the number of keys, and it is below the threshold in a valid table |
| HashTables.HashTable.GetCapacity | HashTable.java:273-275 | the capacity is positive and is the length of the bucket array |
| HashTables.HashTable.GetCollisionResolution | HashTable.java:283-295 | the code is that of the "array of linked nodes" scheme |
| Scenarios.CollisionSchemeIsFive | HashTableTest.java:54-59 | the collision scheme is 5, within 1 to 9 |
| Scenarios.InsertNullKey | HashTableTest.java:65-74 | inserting a null key fails with IllegalNullKey |
| Scenarios.InsertDuplicate | HashTableTest.java:80-89 | the second insertion of a key fails with DuplicateKey and the first value stays |
| Scenarios.RemoveNullKey | HashTableTest.java:95-104 | removing a null key fails with IllegalNullKey |
| Scenarios.GetNullKey | HashTableTest.java:110-119 | getting a null key fails with IllegalNullKey |
| Scenarios.GetMissingKey | HashTableTest.java:125-134 | getting an absent key fails with KeyNotFound |
| Scenarios.NumKeysCounts | HashTableTest.java:140-162 | the key count is 0, then 5 after five insertions, then 4 after one removal |
| Scenarios.InsertOneTwoThree | HashTableTest.java:145-147 | keys 1, 2 and 3 fill a default table without a resize |
| Scenarios.InsertFourFive | HashTableTest.java:148-149 | keys 4 and 5 bring the count to 5 without a resize |
| Scenarios.LoadFactorWithoutCollision | HashTableTest.java:168-180 | three keys in 11 buckets give load factor 3/11 |
| Scenarios.LoadFactorWithCollision | HashTableTest.java:186-198 | keys 1, 12 and 25 also give 3/11, although 1 and 12 share a bucket |
| Scenarios.GetWithoutCollision | HashTableTest.java:204-216 | key 2 is found with value "two" |
| Scenarios.GetWithCollision | HashTableTest.java:222-235 | keys 1, 12 and 23 are chained in bucket 1 in insertion order, and 12 is found |
| Scenarios.ChainOfTwo | HashTableTest.java:224-225 | after inserting 1 and 12, bucket 1 of the default table is the chain 1 -> 12 |
| Scenarios.ChainOfThree | HashTableTest.java:224-227 | after inserting 1, 12 and 23, bucket 1 of the default table is the chain 1 -> 12 -> 23 |
| Scenarios.RemoveWithoutCollision | HashTableTest.java:241-257 | removing key 2 returns true and leaves 2 keys |
| Scenarios.RemoveWithCollision | HashTableTest.java:263-279 | removing 12 from 1 -> 12 -> 23 returns true, leaves 2 keys, and relinks 1 to 23 |
| Scenarios.OneTwoInFour | HashTableTest.java:288-289 | two keys in 4 buckets with threshold 0.75 stay below the threshold |
| Scenarios.ExpandWithoutCollision | HashTableTest.java:285-303 | the third key reaches 0.75, the capacity becomes 9, the count stays 3, and keys 1, 2 and 3 are still found with their values |
| Scenarios.OneInFour | HashTableTest.java:312 | key 1 goes to bucket 1 of 4 |
| Scenarios.CollideTwo | HashTableTest.java:312-313 | keys 1 and 5 are chained 1 -> 5 in bucket 1 of 4 |
| Scenarios.ExpandWithCollision | HashTableTest.java:309-327 | after 1, 5 and 9 the capacity is 9 and the count 3. Keys 9, 1 and 5 sit alone in buckets 0, 1 and 5 |
| Scenarios.CollisionRehash | HashTableTest.java:315-316 | rehashing the chain 1 -> 5 -> 9 into 9 buckets puts 9, 1 and 5 in buckets 0, 1 and 5 |

## Left out

- `ListNode` objects and their `nextNode` links are not modelled. A chain is a sequence of (key, value) entries. Linking at the tail is sequence append, and unlinking is a splice, so aliasing between nodes and the identity of node objects are not captured.
- Keys are `int` with `hashCode()` as the identity. A generic key type with its own `hashCode()` and `equals()` is not modelled, and neither is the unused `Comparable` bound.
- 32-bit arithmetic is not modelled: `2 * capacity + 1` and `numKeys` are unbounded. `Math.abs` cannot meet `Integer.MIN_VALUE` here, since the remainder is smaller than the capacity in magnitude.
- The `double` load factor and threshold are exact `real`s. Rounding in `(double) numKeys / capacity` and in the `>=` comparison is not captured.
- HashTables.HashTable.constructor: requires a positive capacity, a positive threshold, and `threshold * (initialCapacity + 1) >= 1`. The source accepts anything:
  - a capacity of zero or less makes Java throw, either at array creation or at `% 0`;
  - a threshold of zero or less makes `insert` and `expandArray` call each other without end;
  - a small positive threshold lets a re-insertion during a resize start a second, nested resize.

  The default table (11, 0.75) and the one HashTableTest.java constructs (HashTableTest.java:32, capacity 4 and threshold 0.75) satisfy the condition.
- HashTables.HashTable.ExpandArray: re-inserts through the node-linking step of `insert` and does not call the full `insert`. The source runs a null check, a duplicate check and a load-factor check on each re-insertion. `ReinsertChain` asserts at each step that the duplicate check finds the key absent (`Chains.FlattenDistinct`, `Chains.DistributeAbsent`) and that the load-factor check stays false (`HashTables.ReinsertNeverTriggersResize`). Keys are never null there. So the model does not execute these checks.
- Exceptions are values (`Failure`, `Fail`). Stack unwinding and the exception classes are not modelled.
- HashTableADT.java and the exception class files are not part of this model. The `ArrayList` import is unused in the source.
- The JUnit harness (`setUp`, `tearDown`, `fail`) is not modelled. Each test becomes a method whose `ensures` is the outcome the test checks. `test000` checks only that the code lies in 1 to 9, and its scenario states the exact code 5.
