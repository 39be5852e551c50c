/** The buckets of a separate-chaining table, as values. Each bucket is the
    sequence of the nodes of its chain, from head to tail. */
module Chains {
  import opened Outcomes
  import opened Hashing

  /** A chain node's payload: `ListNode`'s key and value. */
  datatype Entry<V> = Entry(key: int, value: V)

  /** A chain, head first. */
  type Chain<V> = seq<Entry<V>>

  /** The value of the first node with key `k`, walking from the head. */
  function Lookup<V>(c: Chain<V>, k: int): (r: Option<V>)
    ensures r.Some? ==> Entry(k, r.value) in c
    ensures r.None? <==> forall i :: 0 <= i < |c| ==> c[i].key != k
  {
    if |c| == 0 then None
    else if c[0].key == k then Some(c[0].value)
    else
      assert forall x :: x in c ==> x == c[0] || x in c[1..];
      Lookup(c[1..], k)
  }

  /** No two nodes of a chain share a key. */
  ghost predicate DistinctKeys<V>(c: Chain<V>)
  {
    forall i, j :: 0 <= i < j < |c| ==> c[i].key != c[j].key
  }

  /** A map entry as an `Option`. */
  function MapGet<V>(m: map<int, V>, k: int): Option<V>
  {
    if k in m then Some(m[k]) else None
  }

  /** Every node sits in the bucket its key hashes to. */
  ghost predicate WellPlaced<V>(chains: seq<Chain<V>>)
  {
    forall b, i :: 0 <= b < |chains| && 0 <= i < |chains[b]| ==> HashFunction(chains[b][i].key, |chains|) == b
  }

  /** Looking a key up in its bucket yields exactly what `m` maps it to. */
  ghost predicate Represents<V>(chains: seq<Chain<V>>, m: map<int, V>)
  {
    |chains| > 0 &&
    forall k :: MapGet(m, k) == Lookup(chains[HashFunction(k, |chains|)], k)
  }

  /** The buckets are a well-formed chained table holding the map `m`. */
  ghost predicate ChainsValid<V>(chains: seq<Chain<V>>, m: map<int, V>)
  {
    && |chains| > 0
    && WellPlaced(chains)
    && (forall b :: 0 <= b < |chains| ==> DistinctKeys(chains[b]))
    && Represents(chains, m)
  }

  /** All nodes, bucket 0 first and head to tail within a bucket: the order
      in which a resize visits them. */
  ghost function Flatten<V>(chains: seq<Chain<V>>): Chain<V>
  {
    if |chains| == 0 then [] else Flatten(chains[..|chains| - 1]) + chains[|chains| - 1]
  }

  /** The entries of `entries` whose key hashes to bucket `b` of `n`, in order. */
  ghost function Bucket<V>(entries: Chain<V>, b: int, n: int): (r: Chain<V>)
    requires n > 0
    ensures forall i :: 0 <= i < |r| ==> HashFunction(r[i].key, n) == b
  {
    if |entries| == 0 then []
    else
      var last := entries[|entries| - 1];
      Bucket(entries[..|entries| - 1], b, n) + (if HashFunction(last.key, n) == b then [last] else [])
  }

  /** Bucket `b` of a distribution holds exactly the entries whose key hashes to `b`. */
  lemma {:induction false} BucketMembers<V>(entries: Chain<V>, b: int, n: int, x: Entry<V>)
    requires n > 0
    ensures x in Bucket(entries, b, n) <==> x in entries && HashFunction(x.key, n) == b
  {
    if |entries| > 0 {
      var init := entries[..|entries| - 1];
      assert entries == init + [entries[|entries| - 1]];
      BucketMembers(init, b, n, x);
    }
  }

  /** The table obtained by appending `entries`, in order, to `n` empty buckets. */
  ghost function Distribute<V>(entries: Chain<V>, n: int): (r: seq<Chain<V>>)
    requires n > 0
    ensures |r| == n
  {
    seq(n, b requires 0 <= b < n => Bucket(entries, b, n))
  }

  /** The table a rehash into `n` buckets builds from `chains`. */
  ghost function Rehash<V>(chains: seq<Chain<V>>, n: int): (r: seq<Chain<V>>)
    requires n > 0
    ensures |r| == n
  {
    Distribute(Flatten(chains), n)
  }

  /** `e` appended at the tail of the bucket its key hashes to. */
  ghost function AppendEntry<V>(chains: seq<Chain<V>>, e: Entry<V>): (r: seq<Chain<V>>)
    requires |chains| > 0
    ensures |r| == |chains|
  {
    var p := HashFunction(e.key, |chains|);
    chains[p := chains[p] + [e]]
  }

  /** The chain without its nodes of key `k`; the others keep their order. */
  ghost function RemoveKey<V>(c: Chain<V>, k: int): (r: Chain<V>)
    ensures forall i :: 0 <= i < |r| ==> r[i] in c && r[i].key != k
    ensures forall i :: 0 <= i < |c| && c[i].key != k ==> c[i] in r
    ensures |r| <= |c|
  {
    if |c| == 0 then []
    else
      assert forall x :: x in c ==> x == c[0] || x in c[1..];
      if c[0].key == k then RemoveKey(c[1..], k) else [c[0]] + RemoveKey(c[1..], k)
  }

  /** The table with key `k` unlinked from its bucket. */
  ghost function RemoveFromChains<V>(chains: seq<Chain<V>>, k: int): (r: seq<Chain<V>>)
    requires |chains| > 0
    ensures |r| == |chains|
  {
    var p := HashFunction(k, |chains|);
    chains[p := RemoveKey(chains[p], k)]
  }

  /** Appending at the tail does not hide an existing node: the new node is
      found only when its key was absent. */
  lemma {:induction false} LookupSnoc<V>(c: Chain<V>, e: Entry<V>, k: int)
    ensures Lookup(c + [e], k) ==
            if Lookup(c, k).Some? then Lookup(c, k)
            else if e.key == k then Some(e.value) else None
  {
    if |c| == 0 {
      assert (c + [e])[1..] == [];
    } else {
      assert (c + [e])[1..] == c[1..] + [e];
      LookupSnoc(c[1..], e, k);
    }
  }

  /** Removing key `k` makes it absent and leaves every other key's lookup alone. */
  lemma {:induction false} RemoveKeyLookup<V>(c: Chain<V>, k: int, k2: int)
    ensures Lookup(RemoveKey(c, k), k2) == if k2 == k then None else Lookup(c, k2)
  {
    if |c| > 0 {
      RemoveKeyLookup(c[1..], k, k2);
      if c[0].key != k {
        assert ([c[0]] + RemoveKey(c[1..], k))[1..] == RemoveKey(c[1..], k);
      }
    }
  }

  /** Removing a key the chain does not hold changes nothing. */
  lemma {:induction false} RemoveKeyAbsent<V>(c: Chain<V>, k: int)
    requires Lookup(c, k) == None
    ensures RemoveKey(c, k) == c
  {
    if |c| > 0 {
      RemoveKeyAbsent(c[1..], k);
      assert [c[0]] + c[1..] == c;
    }
  }

  /** The tail of a chain with distinct keys has distinct keys, none of them the head's. */
  lemma DistinctTail<V>(c: Chain<V>)
    requires DistinctKeys(c) && |c| > 0
    ensures DistinctKeys(c[1..])
    ensures forall i :: 1 <= i < |c| ==> c[i].key != c[0].key
  {
    forall x | x in c[1..] ensures x.key != c[0].key {
      var i :| 0 <= i < |c[1..]| && c[1..][i] == x;
      assert c[i + 1] == x;
    }
  }

  /** Removing a key keeps the keys distinct and drops exactly the one node
      that held it. */
  lemma {:induction false} RemoveKeyDistinct<V>(c: Chain<V>, k: int)
    requires DistinctKeys(c)
    ensures DistinctKeys(RemoveKey(c, k))
    ensures |RemoveKey(c, k)| == if Lookup(c, k).Some? then |c| - 1 else |c|
  {
    if |c| > 0 {
      DistinctTail(c);
      RemoveKeyDistinct(c[1..], k);
      var rest := RemoveKey(c[1..], k);
      if c[0].key == k {
        assert Lookup(c[1..], k) == None;
      } else {
        forall x, y | x in [c[0]] && y in rest ensures x.key != y.key {
          var i :| 0 <= i < |rest| && rest[i] == y;
          var m :| 0 <= m < |c[1..]| && c[1..][m] == y;
          assert c[m + 1] == y;
        }
        DistinctConcat([c[0]], rest);
      }
    }
  }

  /** Unlinking the node at position `j` (the source relinks its predecessor,
      or the bucket slot when `j` is the head) is removing its key. */
  lemma {:induction false} SpliceIsRemoveKey<V>(c: Chain<V>, j: int)
    requires DistinctKeys(c) && 0 <= j < |c|
    ensures c[..j] + c[j + 1..] == RemoveKey(c, c[j].key)
  {
    var k := c[j].key;
    DistinctTail(c);
    if j == 0 {
      RemoveKeyAbsent(c[1..], k);
      assert c[..0] + c[1..] == c[1..];
    } else {
      assert c[1..][j - 1] == c[j];
      SpliceIsRemoveKey(c[1..], j - 1);
      assert c[0].key != k;
      assert c[..j] + c[j + 1..] == [c[0]] + (c[1..][..j - 1] + c[1..][j..]);
    }
  }

  /** Replacing one bucket changes the node count by the difference of the
      two bucket lengths. */
  lemma {:induction false} FlattenUpdate<V>(chains: seq<Chain<V>>, p: int, c: Chain<V>)
    requires 0 <= p < |chains|
    ensures |Flatten(chains[p := c])| == |Flatten(chains)| - |chains[p]| + |c|
  {
    var last := |chains| - 1;
    if p == last {
      assert chains[p := c][..last] == chains[..last];
    } else {
      assert chains[p := c][..last] == chains[..last][p := c];
      FlattenUpdate(chains[..last], p, c);
    }
  }

  /** Visiting one more chain of the old table appends that chain to the
      visiting order. */
  lemma FlattenPrefix<V>(chains: seq<Chain<V>>, i: int)
    requires 0 <= i < |chains|
    ensures Flatten(chains[..i + 1]) == Flatten(chains[..i]) + chains[i]
  {
    assert chains[..i + 1][..i] == chains[..i];
  }

  /** Distributing one more entry appends it at the tail of its bucket: a
      rehash is a sequence of tail insertions. */
  lemma DistributeSnoc<V>(entries: Chain<V>, e: Entry<V>, n: int)
    requires n > 0
    ensures Distribute(entries + [e], n) == AppendEntry(Distribute(entries, n), e)
  {
    assert (entries + [e])[..|entries|] == entries;
    var lhs := Distribute(entries + [e], n);
    var rhs := AppendEntry(Distribute(entries, n), e);
    forall b | 0 <= b < n ensures lhs[b] == rhs[b] {
      assert lhs[b] == Bucket(entries, b, n) + (if HashFunction(e.key, n) == b then [e] else []);
    }
  }

  /** Empty buckets hold the empty map and no nodes. */
  lemma EmptyValid<V>(chains: seq<Chain<V>>)
    requires |chains| > 0
    requires forall b :: 0 <= b < |chains| ==> chains[b] == []
    ensures ChainsValid(chains, map[])
    ensures Flatten(chains) == []
  {
    EmptyFlatten(chains);
  }

  /** A table of empty buckets has no nodes. */
  lemma {:induction false} EmptyFlatten<V>(chains: seq<Chain<V>>)
    requires forall b :: 0 <= b < |chains| ==> chains[b] == []
    ensures Flatten(chains) == []
  {
    if |chains| > 0 {
      EmptyFlatten(chains[..|chains| - 1]);
    }
  }

  /** Inserting a new key at the tail of its bucket keeps the table
      well-formed, adds the key to the map and adds one node. */
  lemma AppendEntryValid<V>(chains: seq<Chain<V>>, m: map<int, V>, e: Entry<V>)
    requires ChainsValid(chains, m) && e.key !in m
    ensures ChainsValid(AppendEntry(chains, e), m[e.key := e.value])
    ensures |Flatten(AppendEntry(chains, e))| == |Flatten(chains)| + 1
  {
    var n := |chains|;
    var p := HashFunction(e.key, n);
    var c := chains[p];
    var r: seq<Chain<V>> := AppendEntry(chains, e);
    var m' := m[e.key := e.value];
    assert MapGet(m, e.key) == Lookup(c, e.key);
    assert forall x :: x in c ==> x.key != e.key;
    assert DistinctKeys(c + [e]) by {
      forall i, j | 0 <= i < j < |c + [e]| ensures (c + [e])[i].key != (c + [e])[j].key {
        if j == |c| {
          assert c[i] in c;
        }
      }
    }
    forall b: int, i: int | 0 <= b < n && 0 <= i < |r[b]| ensures HashFunction(r[b][i].key, n) == b {
      if b == p && i < |c| {
        assert r[b][i] == c[i];
      }
    }
    forall k ensures MapGet(m', k) == Lookup(r[HashFunction(k, n)], k) {
      if HashFunction(k, n) == p {
        LookupSnoc(c, e, k);
      }
    }
    FlattenUpdate(chains, p, c + [e]);
  }

  /** Unlinking a key keeps the table well-formed, removes the key from the
      map, and drops one node exactly when the key was present; an absent
      key leaves the buckets as they were. */
  lemma RemoveEntryValid<V>(chains: seq<Chain<V>>, m: map<int, V>, k: int)
    requires ChainsValid(chains, m)
    ensures ChainsValid(RemoveFromChains(chains, k), m - {k})
    ensures |Flatten(RemoveFromChains(chains, k))| == |Flatten(chains)| - (if k in m then 1 else 0)
    ensures k !in m ==> RemoveFromChains(chains, k) == chains
  {
    var n := |chains|;
    var p := HashFunction(k, n);
    var c := chains[p];
    var r: seq<Chain<V>> := RemoveFromChains(chains, k);
    var m' := m - {k};
    assert MapGet(m, k) == Lookup(c, k);
    RemoveKeyDistinct(c, k);
    forall b: int, i: int | 0 <= b < n && 0 <= i < |r[b]| ensures HashFunction(r[b][i].key, n) == b {
      if b == p {
        assert r[b][i] in c;
      }
    }
    forall k2 ensures MapGet(m', k2) == Lookup(r[HashFunction(k2, n)], k2) {
      if HashFunction(k2, n) == p {
        RemoveKeyLookup(c, k, k2);
      }
    }
    FlattenUpdate(chains, p, RemoveKey(c, k));
    if k !in m {
      RemoveKeyAbsent(c, k);
      assert chains[p := c] == chains;
    }
  }

  /** The map is exactly what the nodes store: every node's key is mapped to
      that node's value, and every mapped key has its node in the bucket its
      key hashes to. */
  lemma StoredEntries<V>(chains: seq<Chain<V>>, m: map<int, V>)
    requires ChainsValid(chains, m)
    ensures forall b, x :: 0 <= b < |chains| && x in chains[b] ==> x.key in m && m[x.key] == x.value
    ensures forall k :: k in m ==> Entry(k, m[k]) in chains[HashFunction(k, |chains|)]
  {
    var n := |chains|;
    forall b, x: Entry<V> | 0 <= b < n && x in chains[b] ensures x.key in m && m[x.key] == x.value {
      var c := chains[b];
      assert HashFunction(x.key, n) == b;
      assert MapGet(m, x.key) == Lookup(c, x.key);
      var v := Lookup(c, x.key).value;
      var i :| 0 <= i < |c| && c[i] == x;
      var j :| 0 <= j < |c| && c[j] == Entry(x.key, v);
      assert i == j;
    }
    forall k | k in m ensures Entry(k, m[k]) in chains[HashFunction(k, n)] {
      assert MapGet(m, k) == Lookup(chains[HashFunction(k, n)], k);
    }
  }

  /** No key is stored twice anywhere in the table. */
  lemma NoDuplicateKeys<V>(chains: seq<Chain<V>>, m: map<int, V>, b1: int, i1: int, b2: int, i2: int)
    requires ChainsValid(chains, m)
    requires 0 <= b1 < |chains| && 0 <= i1 < |chains[b1]|
    requires 0 <= b2 < |chains| && 0 <= i2 < |chains[b2]|
    requires chains[b1][i1].key == chains[b2][i2].key
    ensures b1 == b2 && i1 == i2
  {
    assert chains[b1][i1] in chains[b1] && chains[b2][i2] in chains[b2];
  }

  /** A prefix of the tables's chains holds no more nodes than the whole table. */
  lemma {:induction false} FlattenPrefixLength<V>(chains: seq<Chain<V>>, i: int)
    requires 0 <= i <= |chains|
    ensures |Flatten(chains[..i])| <= |Flatten(chains)|
  {
    if i < |chains| {
      var last := |chains| - 1;
      assert chains[..last][..i] == chains[..i];
      FlattenPrefixLength(chains[..last], i);
    } else {
      assert chains[..i] == chains;
    }
  }

  /** One more node of a chain extends a visiting order by that node. */
  lemma PrefixSnoc<V>(done: Chain<V>, c: Chain<V>, j: int)
    requires 0 <= j < |c|
    ensures c[..j + 1] == c[..j] + [c[j]]
    ensures done + c[..j + 1] == (done + c[..j]) + [c[j]]
  {
    assert c[..j + 1] == c[..j] + [c[j]];
  }

  /** After `entries` are distributed, a node whose key none of them carries
      is absent from the bucket it hashes to: its re-insertion passes the
      duplicate check. */
  lemma DistributeAbsent<V>(entries: Chain<V>, e: Entry<V>, n: int)
    requires n > 0 && DistinctKeys(entries + [e])
    ensures Lookup(Distribute(entries, n)[HashFunction(e.key, n)], e.key) == None
  {
    var p := HashFunction(e.key, n);
    var c := Distribute(entries, n)[p];
    forall i | 0 <= i < |c| ensures c[i].key != e.key {
      BucketMembers(entries, p, n, c[i]);
      var j :| 0 <= j < |entries| && entries[j] == c[i];
      assert (entries + [e])[j] == c[i] && (entries + [e])[|entries|] == e;
    }
  }

  /** Every node of a chain is visited by a resize. */
  lemma {:induction false} FlattenContains<V>(chains: seq<Chain<V>>, b: int, x: Entry<V>)
    requires 0 <= b < |chains| && x in chains[b]
    ensures x in Flatten(chains)
  {
    var last := |chains| - 1;
    if b < last {
      assert chains[..last][b] == chains[b];
      FlattenContains(chains[..last], b, x);
    }
  }

  /** Every node a resize visits comes from one of the chains. */
  lemma {:induction false} FlattenSource<V>(chains: seq<Chain<V>>, x: Entry<V>) returns (b: int)
    requires x in Flatten(chains)
    ensures 0 <= b < |chains| && x in chains[b]
  {
    var last := |chains| - 1;
    if x in chains[last] {
      b := last;
    } else {
      b := FlattenSource(chains[..last], x);
      assert chains[..last][b] == chains[b];
    }
  }

  /** Two chains with distinct keys and no key in common have distinct keys
      when joined. */
  lemma DistinctConcat<V>(a: Chain<V>, c: Chain<V>)
    requires DistinctKeys(a) && DistinctKeys(c)
    requires forall x, y :: x in a && y in c ==> x.key != y.key
    ensures DistinctKeys(a + c)
  {
    var r := a + c;
    forall i, j | 0 <= i < j < |r| ensures r[i].key != r[j].key {
      if j >= |a| && i < |a| {
        assert r[i] in a && r[j] == c[j - |a|] && c[j - |a|] in c;
      } else if i >= |a| {
        assert r[i] == c[i - |a|] && r[j] == c[j - |a|];
      }
    }
  }

  /** In a well-placed table whose chains have distinct keys, the nodes of
      the first `i` chains have distinct keys. */
  lemma {:induction false} FlattenDistinct<V>(chains: seq<Chain<V>>, i: int)
    requires |chains| > 0 && WellPlaced(chains)
    requires forall b :: 0 <= b < |chains| ==> DistinctKeys(chains[b])
    requires 0 <= i <= |chains|
    ensures DistinctKeys(Flatten(chains[..i]))
  {
    if i > 0 {
      FlattenDistinct(chains, i - 1);
      FlattenPrefix(chains, i - 1);
      var n := |chains|;
      forall x, y | x in Flatten(chains[..i - 1]) && y in chains[i - 1] ensures x.key != y.key {
        var b := FlattenSource(chains[..i - 1], x);
        assert chains[..i - 1][b] == chains[b];
        assert HashFunction(x.key, n) == b;
        assert HashFunction(y.key, n) == i - 1;
      }
      DistinctConcat(Flatten(chains[..i - 1]), chains[i - 1]);
    }
  }

  /** Picking out one bucket's entries keeps the keys distinct. */
  lemma {:induction false} BucketDistinct<V>(entries: Chain<V>, b: int, n: int)
    requires n > 0 && DistinctKeys(entries)
    ensures DistinctKeys(Bucket(entries, b, n))
  {
    if |entries| > 0 {
      var init := entries[..|entries| - 1];
      var e := entries[|entries| - 1];
      assert DistinctKeys(init) by {
        forall i, j | 0 <= i < j < |init| ensures init[i].key != init[j].key {
          assert init[i] == entries[i] && init[j] == entries[j];
        }
      }
      BucketDistinct(init, b, n);
      if HashFunction(e.key, n) == b {
        forall x, y | x in Bucket(init, b, n) && y in [e] ensures x.key != y.key {
          BucketMembers(init, b, n, x);
          var i :| 0 <= i < |init| && init[i] == x;
          assert entries[i] == x;
        }
        DistinctConcat(Bucket(init, b, n), [e]);
      }
    }
  }

  /** Distributing entries into buckets keeps every one of them. */
  lemma {:induction false} DistributeLength<V>(entries: Chain<V>, n: int)
    requires n > 0
    ensures |Flatten(Distribute(entries, n))| == |entries|
  {
    if |entries| == 0 {
      EmptyFlatten(Distribute(entries, n));
    } else {
      var init := entries[..|entries| - 1];
      var e := entries[|entries| - 1];
      assert init + [e] == entries;
      DistributeLength(init, n);
      DistributeSnoc(init, e, n);
      var d := Distribute(init, n);
      var p := HashFunction(e.key, n);
      FlattenUpdate(d, p, d[p] + [e]);
    }
  }

  /** A resize rebuilds a well-formed table of the same map and the same
      number of nodes, whatever the new number of buckets. */
  lemma RehashValid<V>(chains: seq<Chain<V>>, m: map<int, V>, n: int)
    requires ChainsValid(chains, m) && n > 0
    ensures ChainsValid(Rehash(chains, n), m)
    ensures |Flatten(Rehash(chains, n))| == |Flatten(chains)|
  {
    var f := Flatten(chains);
    var r: seq<Chain<V>> := Rehash(chains, n);
    assert chains[..|chains|] == chains;
    FlattenDistinct(chains, |chains|);
    StoredEntries(chains, m);
    forall b: int, i: int | 0 <= b < n && 0 <= i < |r[b]| ensures HashFunction(r[b][i].key, n) == b {
      BucketMembers(f, b, n, r[b][i]);
    }
    forall b | 0 <= b < n ensures DistinctKeys(r[b]) {
      BucketDistinct(f, b, n);
    }
    forall k ensures MapGet(m, k) == Lookup(r[HashFunction(k, n)], k) {
      var c := r[HashFunction(k, n)];
      if k in m {
        var x := Entry(k, m[k]);
        FlattenContains(chains, HashFunction(k, |chains|), x);
        BucketMembers(f, HashFunction(k, n), n, x);
        var v := Lookup(c, k).value;
        BucketMembers(f, HashFunction(k, n), n, Entry(k, v));
        var src := FlattenSource(chains, Entry(k, v));
      } else if Lookup(c, k).Some? {
        var y := Entry(k, Lookup(c, k).value);
        BucketMembers(f, HashFunction(k, n), n, y);
        var src := FlattenSource(chains, y);
      }
    }
    DistributeLength(f, n);
  }
}
