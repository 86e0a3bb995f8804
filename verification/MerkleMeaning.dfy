/** What equal Merkle roots say about the data the two trees were built from. */
module MerkleMeaning {
  import opened Common
  import opened Ordering
  import opened Merkle

  // ---- collisions ----

  predicate NoCollision(sha: Sha, x: Bytes, y: Bytes) {
    sha(x) == sha(y) ==> x == y
  }

  /** The string hashed for inner node `i`. */
  function PairString(t: MerkleTree, i: nat): Bytes
    requires Shaped(t) && 1 <= i < NUM_BUCKETS
  {
    t.nodes[2 * i] + t.nodes[2 * i + 1]
  }

  /**
   * Two built trees, and the fact that SHA-256 did not collide on the two strings hashed for any one
   * bucket or inner node of both.
   */
  ghost predicate BuiltPair(sha: Sha, xs: seq<Item>, sx: seq<Item>, a: MerkleTree, ys: seq<Item>, sy: seq<Item>,
                            b: MerkleTree)
  {
    && BuiltFrom(sha, xs, sx, a) && BuiltFrom(sha, ys, sy, b)
    && (forall i :: 0 <= i < NUM_BUCKETS ==>
          NoCollision(sha, BucketBytes(Bucket(sha, sx, i)), BucketBytes(Bucket(sha, sy, i))))
    && forall i :: 1 <= i < NUM_BUCKETS ==> NoCollision(sha, PairString(a, i), PairString(b, i))
  }

  lemma {:induction false} NodeLength(sha: Sha, t: MerkleTree, i: nat)
    requires Built(sha, t) && 1 <= i < 2 * NUM_BUCKETS
    ensures |t.nodes[i]| == 64
  {
    if i >= NUM_BUCKETS {
      assert t.nodes[i] == t.buckets[i - NUM_BUCKETS];
    } else {
      assert HashesChildren(sha, t, i);
    }
  }

  lemma {:induction false} NoPairCollisions(sha: Sha, xs: seq<Item>, sx: seq<Item>, a: MerkleTree, ys: seq<Item>,
                                            sy: seq<Item>, b: MerkleTree)
    requires BuiltPair(sha, xs, sx, a, ys, sy, b)
    ensures NoPairCollision(a, b)
  {
    forall i | 1 <= i < NUM_BUCKETS && a.nodes[i] == b.nodes[i] ensures SameOnlyIfChildren(a, b, i) {
      assert HashesChildren(sha, a, i) && HashesChildren(sha, b, i);
      var x, y := PairString(a, i), PairString(b, i);
      HexInjective(sha(x), sha(y));
      assert NoCollision(sha, x, y);
      NodeLength(sha, a, 2 * i);
      NodeLength(sha, b, 2 * i);
      assert x[..64] == a.nodes[2 * i] && y[..64] == b.nodes[2 * i];
      assert x[64..] == a.nodes[2 * i + 1] && y[64..] == b.nodes[2 * i + 1];
    }
  }

  /** A differing path ends at a differing root. */
  lemma {:induction false} PathEndsAtRoot(a: MerkleTree, b: MerkleTree, j: nat)
    requires Shaped(a) && Shaped(b) && 1 <= j < 2 * NUM_BUCKETS && PathDiffers(a, b, j)
    ensures a.rootHash != b.rootHash
  {
    if j == 1 {
    } else {
      PathEndsAtRoot(a, b, j / 2);
    }
  }

  /** The bucket hashes determine every node. */
  lemma {:induction false} BucketsDetermineNodes(sha: Sha, a: MerkleTree, b: MerkleTree, i: nat)
    requires Built(sha, a) && Built(sha, b) && a.buckets == b.buckets && 1 <= i < 2 * NUM_BUCKETS
    ensures a.nodes[i] == b.nodes[i]
    decreases |a.nodes| - i
  {
    if i < NUM_BUCKETS {
      BucketsDetermineNodes(sha, a, b, 2 * i);
      BucketsDetermineNodes(sha, a, b, 2 * i + 1);
      assert HashesChildren(sha, a, i) && HashesChildren(sha, b, i);
    }
  }

  /** Equal roots if and only if every bucket was hashed from the same bytes. */
  lemma {:induction false} RootsEqualIffBytes(sha: Sha, xs: seq<Item>, sx: seq<Item>, a: MerkleTree, ys: seq<Item>,
      sy: seq<Item>, b: MerkleTree)
    requires BuiltPair(sha, xs, sx, a, ys, sy, b)
    ensures a.rootHash == b.rootHash
       <==> forall i :: 0 <= i < NUM_BUCKETS ==> BucketBytes(Bucket(sha, sx, i)) == BucketBytes(Bucket(sha, sy, i))
  {
    if a.rootHash == b.rootHash {
      forall i | 0 <= i < NUM_BUCKETS ensures BucketBytes(Bucket(sha, sx, i)) == BucketBytes(Bucket(sha, sy, i)) {
        SameRootSameBytes(sha, xs, sx, a, ys, sy, b, i);
      }
    }
    if forall i :: 0 <= i < NUM_BUCKETS ==> BucketBytes(Bucket(sha, sx, i)) == BucketBytes(Bucket(sha, sy, i)) {
      assert a.buckets == b.buckets;
      BucketsDetermineNodes(sha, a, b, 1);
    }
  }

  lemma {:induction false} SameRootSameBytes(sha: Sha, xs: seq<Item>, sx: seq<Item>, a: MerkleTree, ys: seq<Item>,
      sy: seq<Item>, b: MerkleTree, i: nat)
    requires BuiltPair(sha, xs, sx, a, ys, sy, b) && a.rootHash == b.rootHash && i < NUM_BUCKETS
    ensures BucketBytes(Bucket(sha, sx, i)) == BucketBytes(Bucket(sha, sy, i))
  {
    NoPairCollisions(sha, xs, sx, a, ys, sy, b);
    var j := NUM_BUCKETS + i;
    if a.nodes[j] != b.nodes[j] {
      DifferencePropagates(a, b, j);
      PathEndsAtRoot(a, b, j);
      assert false;
    }
    assert a.nodes[j] == a.buckets[i] && b.nodes[j] == b.buckets[i];
    var x, y := BucketBytes(Bucket(sha, sx, i)), BucketBytes(Bucket(sha, sy, i));
    HexInjective(sha(x), sha(y));
    assert NoCollision(sha, x, y);
  }

  // ---- reading a bucket's bytes back ----

  predicate NoZero(s: Bytes) {
    forall i :: 0 <= i < |s| ==> s[i] != 0
  }

  predicate NoZeroBytes(items: seq<Item>) {
    forall i :: 0 <= i < |items| ==> NoZero(items[i].key) && NoZero(items[i].value)
  }

  lemma {:induction false} FirstZero(a: Bytes, x: Bytes)
    requires NoZero(a)
    ensures (a + [0] + x)[|a|] == 0 && forall i :: 0 <= i < |a| ==> (a + [0] + x)[i] != 0
  {
  }

  /** The first zero byte marks the end of the first part. */
  lemma {:induction false} SplitAtZero(a: Bytes, x: Bytes, b: Bytes, y: Bytes)
    requires NoZero(a) && NoZero(b) && a + [0] + x == b + [0] + y
    ensures a == b && x == y
  {
    var s, t := a + [0] + x, b + [0] + y;
    FirstZero(a, x);
    FirstZero(b, y);
    assert |a| == |b|;
    assert s[..|a|] == a && t[..|b|] == b && s[|a| + 1..] == x && t[|b| + 1..] == y;
  }

  lemma {:induction false} BucketHead(items: seq<Item>)
    requires items != []
    ensures BucketBytes(items) == items[0].key + [0] + (items[0].value + [0] + BucketBytes(items[1..]))
  {
  }

  lemma {:induction false} BytesDetermineItems(xs: seq<Item>, ys: seq<Item>)
    requires NoZeroBytes(xs) && NoZeroBytes(ys) && BucketBytes(xs) == BucketBytes(ys)
    ensures xs == ys
  {
    if xs != [] && ys != [] {
      BucketHead(xs);
      BucketHead(ys);
      var x, y := xs[0], ys[0];
      SplitAtZero(x.key, x.value + [0] + BucketBytes(xs[1..]), y.key, y.value + [0] + BucketBytes(ys[1..]));
      SplitAtZero(x.value, BucketBytes(xs[1..]), y.value, BucketBytes(ys[1..]));
      BytesDetermineItems(xs[1..], ys[1..]);
      assert xs == [x] + xs[1..] && ys == [y] + ys[1..];
    }
  }

  /** With a zero byte in a value, one item can be hashed from the same bytes as two. */
  lemma {:induction false} ZeroByteAmbiguity(k: Bytes, v: Bytes, k': Bytes, v': Bytes)
    ensures BucketBytes([Item(k, v + [0] + k' + [0] + v')]) == BucketBytes([Item(k, v), Item(k', v')])
  {
    var one, two := [Item(k, v + [0] + k' + [0] + v')], [Item(k, v), Item(k', v')];
    assert one[1..] == [] && two[1..] == [Item(k', v')] && two[1..][1..] == [];
    assert BucketBytes(two[1..]) == k' + [0] + v' + [0];
    assert BucketBytes(one) == k + [0] + (v + [0] + k' + [0] + v') + [0];
    assert BucketBytes(two) == k + [0] + v + [0] + (k' + [0] + v' + [0]);
  }

  // ---- the data as a map ----

  ghost predicate DistinctKeys(items: seq<Item>) {
    forall i, j :: 0 <= i < j < |items| ==> items[i].key != items[j].key
  }

  function MapOf(items: seq<Item>): map<Bytes, Bytes> {
    if items == [] then map[] else MapOf(items[1..])[items[0].key := items[0].value]
  }

  lemma {:induction false} MapHas(items: seq<Item>, k: Bytes, v: Bytes)
    requires DistinctKeys(items)
    ensures k in MapOf(items) && MapOf(items)[k] == v <==> Item(k, v) in items
  {
    if items == [] {
    } else {
      MapHas(items[1..], k, v);
      assert items == [items[0]] + items[1..];
    }
  }

  lemma {:induction false} SameMapSameItems(xs: seq<Item>, ys: seq<Item>)
    requires DistinctKeys(xs) && DistinctKeys(ys)
    ensures MapOf(xs) == MapOf(ys) <==> forall e :: e in xs <==> e in ys
  {
    forall e: Item
      ensures (e in xs <==> e.key in MapOf(xs) && MapOf(xs)[e.key] == e.value)
      ensures (e in ys <==> e.key in MapOf(ys) && MapOf(ys)[e.key] == e.value)
    {
      MapHas(xs, e.key, e.value);
      MapHas(ys, e.key, e.value);
      assert e == Item(e.key, e.value);
    }
    if forall e :: e in xs <==> e in ys {
      forall k ensures k in MapOf(xs) <==> k in MapOf(ys) {
        if k in MapOf(xs) {
          assert Item(k, MapOf(xs)[k]) in xs;
        }
        if k in MapOf(ys) {
          assert Item(k, MapOf(ys)[k]) in ys;
        }
      }
      forall k | k in MapOf(xs) ensures MapOf(xs)[k] == MapOf(ys)[k] {
        assert Item(k, MapOf(xs)[k]) in ys;
      }
    }
  }

  /** Sorting keeps the items and the distinctness of their keys. */
  lemma {:induction false} SortedItems(items: seq<Item>, sorted: seq<Item>)
    requires multiset(sorted) == multiset(items)
    ensures forall e :: e in sorted <==> e in items
    ensures DistinctKeys(items) ==> DistinctKeys(sorted)
  {
    forall e ensures e in sorted <==> e in items {
      assert e in multiset(sorted) <==> e in multiset(items);
    }
    if DistinctKeys(items) {
      forall i, j | 0 <= i < j < |sorted| ensures sorted[i].key != sorted[j].key {
        if sorted[i] == sorted[j] {
          TwiceCounted(sorted, i, j);
          OnceCounted(items, sorted[i]);
        } else {
          assert sorted[i] in items && sorted[j] in items;
        }
      }
    }
  }

  ghost predicate KeysAscend(items: seq<Item>) {
    forall i, j :: 0 <= i < j < |items| ==> LexLess(items[i].key, items[j].key)
  }

  lemma {:induction false} SortedKeysAscend(sorted: seq<Item>)
    requires SortedBy(sorted, KeyLeq) && DistinctKeys(sorted)
    ensures KeysAscend(sorted)
  {
    forall i, j | 0 <= i < j < |sorted| ensures LexLess(sorted[i].key, sorted[j].key) {
      assert KeyLeq(sorted[i], sorted[j]);
      LexTotal(sorted[i].key, sorted[j].key);
    }
  }

  lemma {:induction false} TailItems(x: seq<Item>, e: Item)
    requires KeysAscend(x) && x != []
    ensures e in x[1..] <==> e in x && e != x[0]
  {
    LexIrreflexive(x[0].key);
  }

  /** There is only one ascending list of given items. */
  lemma {:induction false} AscendingItemsUnique(x: seq<Item>, y: seq<Item>)
    requires KeysAscend(x) && KeysAscend(y) && forall e :: e in x <==> e in y
    ensures x == y
  {
    assert x != [] ==> x[0] in y;
    assert y != [] ==> y[0] in x;
    if x != [] && y != [] {
      assert x[0] == y[0] by {
        LexAsymmetric(x[0].key, y[0].key);
      }
      forall e ensures e in x[1..] <==> e in y[1..] {
        TailItems(x, e);
        TailItems(y, e);
      }
      AscendingItemsUnique(x[1..], y[1..]);
      assert x == [x[0]] + x[1..] && y == [y[0]] + y[1..];
    }
  }

  /** The same map is sorted into the same list, whatever order it came in. */
  lemma {:induction false} SameMapSameOrder(xs: seq<Item>, sx: seq<Item>, ys: seq<Item>, sy: seq<Item>)
    requires DistinctKeys(xs) && DistinctKeys(ys) && MapOf(xs) == MapOf(ys)
    requires SortedBy(sx, KeyLeq) && multiset(sx) == multiset(xs)
    requires SortedBy(sy, KeyLeq) && multiset(sy) == multiset(ys)
    ensures sx == sy
  {
    SortedItems(xs, sx);
    SortedItems(ys, sy);
    SortedKeysAscend(sx);
    SortedKeysAscend(sy);
    SameMapSameItems(xs, ys);
    AscendingItemsUnique(sx, sy);
  }

  lemma {:induction false} NoZeroBucket(sha: Sha, items: seq<Item>, sorted: seq<Item>, i: nat)
    requires NoZeroBytes(items) && multiset(sorted) == multiset(items)
    ensures NoZeroBytes(Bucket(sha, sorted, i))
  {
    var bucket := Bucket(sha, sorted, i);
    SortedItems(items, sorted);
    forall n | 0 <= n < |bucket| ensures NoZero(bucket[n].key) && NoZero(bucket[n].value) {
      FilterMember(sorted, InBucket(sha, i), bucket[n]);
      assert bucket[n] in bucket;
      var m :| 0 <= m < |items| && items[m] == bucket[n];
    }
  }

  // ---- the main results ----

  /** Build depends only on the map: permuted input gives the same root and the same tree. */
  lemma {:induction false} OrderDoesNotMatter(sha: Sha, xs: seq<Item>, sx: seq<Item>, a: MerkleTree, ys: seq<Item>,
      sy: seq<Item>, b: MerkleTree)
    requires BuiltFrom(sha, xs, sx, a) && BuiltFrom(sha, ys, sy, b)
    requires DistinctKeys(xs) && DistinctKeys(ys) && MapOf(xs) == MapOf(ys)
    ensures a.rootHash == b.rootHash && a.buckets == b.buckets && a.nodes[1..] == b.nodes[1..]
  {
    SameMapSameOrder(xs, sx, ys, sy);
    assert a.buckets == b.buckets;
    forall i | 1 <= i < 2 * NUM_BUCKETS ensures a.nodes[i] == b.nodes[i] {
      BucketsDetermineNodes(sha, a, b, i);
    }
  }

  /**
   * Two trees, built from items with distinct keys and no zero bytes, with no SHA-256 collision
   * between the strings hashed at the same place, have equal roots if and only if the items form the same map.
   */
  lemma {:induction false} EqualRootsMeanEqualData(sha: Sha, xs: seq<Item>, sx: seq<Item>, a: MerkleTree,
      ys: seq<Item>, sy: seq<Item>, b: MerkleTree)
    requires BuiltPair(sha, xs, sx, a, ys, sy, b)
    requires DistinctKeys(xs) && DistinctKeys(ys) && NoZeroBytes(xs) && NoZeroBytes(ys)
    ensures a.rootHash == b.rootHash <==> MapOf(xs) == MapOf(ys)
  {
    if MapOf(xs) == MapOf(ys) {
      OrderDoesNotMatter(sha, xs, sx, a, ys, sy, b);
    }
    if a.rootHash == b.rootHash {
      forall e: Item ensures e in xs <==> e in ys {
        var i := BucketIndex(sha, e.key);
        SameRootSameBytes(sha, xs, sx, a, ys, sy, b, i);
        NoZeroBucket(sha, xs, sx, i);
        NoZeroBucket(sha, ys, sy, i);
        BytesDetermineItems(Bucket(sha, sx, i), Bucket(sha, sy, i));
        FilterMember(sx, InBucket(sha, i), e);
        FilterMember(sy, InBucket(sha, i), e);
        SortedItems(xs, sx);
        SortedItems(ys, sy);
      }
      SameMapSameItems(xs, ys);
    }
  }

  /** Two keys in one bucket and a zero byte: different maps with the same root, whatever the hash. */
  lemma {:induction false} ZeroByteHidesDifference(sha: Sha, k: Bytes, v: Bytes, k': Bytes, v': Bytes, sx: seq<Item>,
      a: MerkleTree, sy: seq<Item>, b: MerkleTree)
    requires LexLess(k, k') && BucketIndex(sha, k) == BucketIndex(sha, k')
    requires BuiltFrom(sha, [Item(k, v + [0] + k' + [0] + v')], sx, a)
    requires BuiltFrom(sha, [Item(k, v), Item(k', v')], sy, b)
    ensures a.rootHash == b.rootHash && MapOf([Item(k, v + [0] + k' + [0] + v')]) != MapOf([Item(k, v), Item(k', v')])
  {
    var one, two := [Item(k, v + [0] + k' + [0] + v')], [Item(k, v), Item(k', v')];
    LexIrreflexive(k);
    LexAsymmetric(k, k');
    assert SortedBy(one, KeyLeq) && SortedBy(two, KeyLeq);
    SameMapSameOrder(one, sx, one, one);
    SameMapSameOrder(two, sy, two, two);
    forall i | 0 <= i < NUM_BUCKETS ensures a.buckets[i] == b.buckets[i] {
      if i == BucketIndex(sha, k) {
        FilterAll(one, InBucket(sha, i));
        FilterAll(two, InBucket(sha, i));
        ZeroByteAmbiguity(k, v, k', v');
      } else {
        FilterNone(one, InBucket(sha, i));
        FilterNone(two, InBucket(sha, i));
      }
    }
    assert a.buckets == b.buckets;
    BucketsDetermineNodes(sha, a, b, 1);
    assert one[1..] == [] && two[1..] == [Item(k', v')];
    assert k' in MapOf(two) && k' !in MapOf(one);
  }
}
