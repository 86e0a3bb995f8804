/** Merkle trees over hashed buckets: building, pruned comparison, and what equal roots mean. */
module Merkle {
  import opened Common
  import opened Ordering

  const NUM_BUCKETS := 1024

  type Digest = d: Bytes | |d| == 32 witness seq(32, _ => 0)

  /** SHA-256, of which only the digest length is used. */
  type Sha = Bytes -> Digest

  datatype Item = Item(key: Bytes, value: Bytes)

  // ---- hashing ----

  function HexDigit(n: nat): Byte
    requires n < 16
  {
    if n < 10 then 48 + n else 87 + n
  }

  function Hex(s: Bytes): (h: Bytes)
    ensures |h| == 2 * |s|
  {
    if s == [] then [] else [HexDigit(s[0] / 16), HexDigit(s[0] % 16)] + Hex(s[1..])
  }

  const DIGITS := "0123456789abcdef"

  /** Each byte is written as two lower-case hexadecimal digits, the high one first. */
  lemma {:induction false} HexDigits(s: Bytes, i: nat)
    requires i < |s|
    ensures Hex(s)[2 * i] == DIGITS[s[i] / 16] as int && Hex(s)[2 * i + 1] == DIGITS[s[i] % 16] as int
  {
    if i == 0 {
    } else {
      HexDigits(s[1..], i - 1);
    }
  }

  lemma {:induction false} HexInjective(a: Bytes, b: Bytes)
    requires Hex(a) == Hex(b)
    ensures a == b
  {
    assert |Hex(a)| == |Hex(b)|;
    if a == [] {
    } else {
      var x, y := Hex(a), Hex(b);
      assert x[0] == HexDigit(a[0] / 16) && x[1] == HexDigit(a[0] % 16);
      assert y[0] == HexDigit(b[0] / 16) && y[1] == HexDigit(b[0] % 16);
      assert x[2..] == Hex(a[1..]) && y[2..] == Hex(b[1..]);
      HexInjective(a[1..], b[1..]);
      assert a == [a[0]] + a[1..] && b == [b[0]] + b[1..];
    }
  }

  function BucketIndex(sha: Sha, key: Bytes): (i: nat)
    ensures i < NUM_BUCKETS
  {
    var h := sha(key);
    (256 * h[0] as nat + h[1]) % NUM_BUCKETS
  }

  /** Two keys share a bucket exactly if their digests agree on the second byte and two bits of the first. */
  lemma {:induction false} BucketsShared(sha: Sha, k: Bytes, k': Bytes)
    ensures BucketIndex(sha, k) == BucketIndex(sha, k')
       <==> sha(k)[1] == sha(k')[1] && sha(k)[0] % 4 == sha(k')[0] % 4
    ensures BucketIndex(sha, k) == 256 * (sha(k)[0] as nat % 4) + sha(k)[1] as nat
  {
    BucketOfBytes(sha(k)[0], sha(k)[1]);
    BucketOfBytes(sha(k')[0], sha(k')[1]);
  }

  lemma {:induction false} BucketOfBytes(a: int, b: int)
    requires 0 <= a < 256 && 0 <= b < 256
    ensures (256 * a + b) % 1024 == 256 * (a % 4) + b
  {
    assert a == 4 * (a / 4) + a % 4;
    assert 256 * a + b == 1024 * (a / 4) + (256 * (a % 4) + b);
  }

  /** The bytes of a bucket: every key and value followed by a zero byte. */
  function BucketBytes(items: seq<Item>): Bytes {
    if items == [] then [] else items[0].key + [0] + items[0].value + [0] + BucketBytes(items[1..])
  }

  function HashBucket(sha: Sha, items: seq<Item>): (h: Bytes)
    ensures |h| == 64
  {
    Hex(sha(BucketBytes(items)))
  }

  function HashPair(sha: Sha, a: Bytes, b: Bytes): (h: Bytes)
    ensures |h| == 64
  {
    Hex(sha(a + b))
  }

  // ---- trees ----

  datatype MerkleTree = MerkleTree(buckets: seq<Bytes>, nodes: seq<Bytes>, rootHash: Bytes)

  predicate Shaped(t: MerkleTree) {
    |t.buckets| == NUM_BUCKETS && |t.nodes| == 2 * NUM_BUCKETS && t.rootHash == t.nodes[1]
  }

  /** Inner node `i` is the hash of its two children. */
  predicate HashesChildren(sha: Sha, t: MerkleTree, i: nat)
    requires Shaped(t) && 1 <= i < NUM_BUCKETS
  {
    t.nodes[i] == HashPair(sha, t.nodes[2 * i], t.nodes[2 * i + 1])
  }

  /** Leaves hold the bucket hashes, every inner node the hash of its two children. */
  ghost predicate Built(sha: Sha, t: MerkleTree) {
    && Shaped(t)
    && (forall i :: NUM_BUCKETS <= i < 2 * NUM_BUCKETS ==> t.nodes[i] == t.buckets[i - NUM_BUCKETS])
    && (forall i :: 1 <= i < NUM_BUCKETS ==> HashesChildren(sha, t, i))
    && (forall i :: 0 <= i < NUM_BUCKETS ==> |t.buckets[i]| == 64)
  }

  predicate KeyLeq(a: Item, b: Item) {
    LexLeq(a.key, b.key)
  }

  function InBucket(sha: Sha, i: nat): Item -> bool {
    (e: Item) => BucketIndex(sha, e.key) == i
  }

  /** The sorted items that fall into bucket `i`. */
  function Bucket(sha: Sha, sorted: seq<Item>, i: nat): seq<Item> {
    Filter(sorted, InBucket(sha, i))
  }

  /** What Build returns for `items`, `sorted` being the order its sort produced. */
  ghost predicate BuiltFrom(sha: Sha, items: seq<Item>, sorted: seq<Item>, t: MerkleTree) {
    && SortedBy(sorted, KeyLeq) && multiset(sorted) == multiset(items)
    && Built(sha, t)
    && forall i :: 0 <= i < NUM_BUCKETS ==> t.buckets[i] == HashBucket(sha, Bucket(sha, sorted, i))
  }

  lemma {:induction false} KeysTotallyOrdered()
    ensures TotalPreorder(KeyLeq)
  {
    forall a: Item, b: Item ensures KeyLeq(a, b) || KeyLeq(b, a) {
      LexAsymmetric(a.key, b.key);
    }
    forall a: Item, b: Item, c: Item | KeyLeq(a, b) && KeyLeq(b, c) ensures KeyLeq(a, c) {
      LexLeqTransitive(a.key, b.key, c.key);
    }
  }

  /** Distributes the sorted items over the buckets, in order. */
  method Distribute(sha: Sha, sorted: seq<Item>) returns (buckets: seq<seq<Item>>)
    ensures |buckets| == NUM_BUCKETS && forall i :: 0 <= i < NUM_BUCKETS ==> buckets[i] == Bucket(sha, sorted, i)
  {
    buckets := seq(NUM_BUCKETS, _ => []);
    for n := 0 to |sorted|
      invariant |buckets| == NUM_BUCKETS
      invariant forall i :: 0 <= i < NUM_BUCKETS ==> buckets[i] == Bucket(sha, sorted[..n], i)
    {
      var e := sorted[n];
      var idx := BucketIndex(sha, e.key);
      assert sorted[..n + 1] == sorted[..n] + [e];
      forall i | 0 <= i < NUM_BUCKETS
        ensures Bucket(sha, sorted[..n + 1], i) == if i == idx then buckets[i] + [e] else buckets[i]
      {
        FilterSnoc(sorted[..n], e, InBucket(sha, i));
      }
      buckets := buckets[idx := buckets[idx] + [e]];
    }
    assert sorted[..|sorted|] == sorted;
  }

  /** Fills the heap layout bottom-up. */
  method BuildNodes(sha: Sha, buckets: seq<Bytes>) returns (t: MerkleTree)
    requires |buckets| == NUM_BUCKETS && forall i :: 0 <= i < NUM_BUCKETS ==> |buckets[i]| == 64
    ensures Built(sha, t) && t.buckets == buckets
  {
    var nodes := new Bytes[2 * NUM_BUCKETS](_ => []);
    for i := 0 to NUM_BUCKETS
      invariant forall j :: NUM_BUCKETS <= j < NUM_BUCKETS + i ==> nodes[j] == buckets[j - NUM_BUCKETS]
    {
      nodes[NUM_BUCKETS + i] := buckets[i];
    }
    for i := NUM_BUCKETS downto 1
      invariant forall j :: NUM_BUCKETS <= j < 2 * NUM_BUCKETS ==> nodes[j] == buckets[j - NUM_BUCKETS]
      invariant forall j :: i <= j < NUM_BUCKETS ==> nodes[j] == HashPair(sha, nodes[2 * j], nodes[2 * j + 1])
    {
      nodes[i] := HashPair(sha, nodes[2 * i], nodes[2 * i + 1]);
    }
    t := MerkleTree(buckets, nodes[..], nodes[1]);
  }

  /** Sorts the entries in place. */
  method SortEntries(entries: array<Item>)
    modifies entries
    ensures SortedBy(entries[..], KeyLeq) && multiset(entries[..]) == multiset(old(entries[..]))
  {
    KeysTotallyOrdered();
    var sorted := SortSlice(entries[..], KeyLeq);
    assert |sorted| == entries.Length by {
      assert |multiset(sorted)| == |sorted| && |multiset(entries[..])| == entries.Length;
    }
    for i := 0 to entries.Length
      invariant entries[..i] == sorted[..i]
    {
      entries[i] := sorted[i];
    }
    assert entries[..] == sorted;
  }

  /** Build; the caller's entries are left in the order they were sorted into. */
  method Build(sha: Sha, entries: array<Item>) returns (t: MerkleTree)
    modifies entries
    ensures BuiltFrom(sha, old(entries[..]), entries[..], t)
  {
    SortEntries(entries);
    var parts := Distribute(sha, entries[..]);
    var buckets: seq<Bytes> := [];
    for i := 0 to NUM_BUCKETS
      invariant |buckets| == i && forall j :: 0 <= j < i ==> buckets[j] == HashBucket(sha, parts[j])
    {
      buckets := buckets + [HashBucket(sha, parts[i])];
    }
    t := BuildNodes(sha, buckets);
  }

  // ---- the pruned comparison ----

  /** The buckets the descent reports below node `idx`, in the order it reports them. */
  function Found(a: MerkleTree, b: MerkleTree, idx: nat): seq<nat>
    requires Shaped(a) && Shaped(b) && 1 <= idx < 2 * NUM_BUCKETS
    decreases |a.nodes| - idx
  {
    if idx >= NUM_BUCKETS then
      (if a.buckets[idx - NUM_BUCKETS] != b.buckets[idx - NUM_BUCKETS] then [idx - NUM_BUCKETS] else [])
    else
      (if a.nodes[2 * idx] != b.nodes[2 * idx] then Found(a, b, 2 * idx) else [])
      + (if a.nodes[2 * idx + 1] != b.nodes[2 * idx + 1] then Found(a, b, 2 * idx + 1) else [])
  }

  method DiffSubtree(a: MerkleTree, b: MerkleTree, idx: nat, diffs: seq<nat>) returns (r: seq<nat>)
    requires Shaped(a) && Shaped(b) && 1 <= idx < 2 * NUM_BUCKETS
    ensures r == diffs + Found(a, b, idx)
    decreases |a.nodes| - idx
  {
    r := diffs;
    if idx >= NUM_BUCKETS {
      var bucketIdx := idx - NUM_BUCKETS;
      if a.buckets[bucketIdx] != b.buckets[bucketIdx] {
        r := r + [bucketIdx];
      }
      return;
    }
    var left, right := 2 * idx, 2 * idx + 1;
    FoundParts(a, b, idx, diffs);
    if left < |a.nodes| && a.nodes[left] != b.nodes[left] {
      r := DiffSubtree(a, b, left, r);
    }
    assert r == diffs + Part(a, b, left);
    if right < |a.nodes| && a.nodes[right] != b.nodes[right] {
      r := DiffSubtree(a, b, right, r);
    }
  }

  /** What a child contributes. */
  ghost function Part(a: MerkleTree, b: MerkleTree, child: nat): seq<nat>
    requires Shaped(a) && Shaped(b) && 1 <= child < 2 * NUM_BUCKETS
  {
    if a.nodes[child] != b.nodes[child] then Found(a, b, child) else []
  }

  lemma {:induction false} FoundParts(a: MerkleTree, b: MerkleTree, idx: nat, diffs: seq<nat>)
    requires Shaped(a) && Shaped(b) && 1 <= idx < NUM_BUCKETS
    ensures diffs + Found(a, b, idx) == diffs + Part(a, b, 2 * idx) + Part(a, b, 2 * idx + 1)
  {
    assert Found(a, b, idx) == Part(a, b, 2 * idx) + Part(a, b, 2 * idx + 1);
  }

  ghost predicate StrictlyAscending(s: seq<nat>) {
    forall i, j :: 0 <= i < j < |s| ==> s[i] < s[j]
  }

  /** Node `j` and all its ancestors up to the root differ. */
  predicate PathDiffers(a: MerkleTree, b: MerkleTree, j: nat)
    requires Shaped(a) && Shaped(b) && 1 <= j < 2 * NUM_BUCKETS
  {
    a.nodes[j] != b.nodes[j] && (j == 1 || PathDiffers(a, b, j / 2))
  }

  /** The descent that starts at `idx` reaches node `j`: all nodes from `j` up to below `idx` differ. */
  predicate Reaches(a: MerkleTree, b: MerkleTree, j: nat, idx: nat)
    requires Shaped(a) && Shaped(b) && j < 2 * NUM_BUCKETS
  {
    j == idx || (j > idx && a.nodes[j] != b.nodes[j] && Reaches(a, b, j / 2, idx))
  }

  lemma {:induction false} ReachesThroughChild(a: MerkleTree, b: MerkleTree, j: nat, idx: nat)
    requires Shaped(a) && Shaped(b) && 1 <= idx < NUM_BUCKETS && idx < j < 2 * NUM_BUCKETS
    ensures Reaches(a, b, j, idx)
       <==> || (a.nodes[2 * idx] != b.nodes[2 * idx] && Reaches(a, b, j, 2 * idx))
            || (a.nodes[2 * idx + 1] != b.nodes[2 * idx + 1] && Reaches(a, b, j, 2 * idx + 1))
    decreases j
  {
    if j > 2 * idx + 1 {
      ReachesThroughChild(a, b, j / 2, idx);
    } else if j < 2 * idx {
      assert j / 2 < idx;
    } else {
      assert j / 2 == idx;
      assert !Reaches(a, b, j / 2, 2 * idx) && !Reaches(a, b, j / 2, 2 * idx + 1);
    }
  }

  /** The descent reports exactly the differing buckets it reaches. */
  lemma {:induction false} FoundIsReached(a: MerkleTree, b: MerkleTree, idx: nat, k: nat)
    requires Shaped(a) && Shaped(b) && 1 <= idx < 2 * NUM_BUCKETS && k < NUM_BUCKETS
    ensures k in Found(a, b, idx) <==> a.buckets[k] != b.buckets[k] && Reaches(a, b, NUM_BUCKETS + k, idx)
    decreases |a.nodes| - idx
  {
    var j := NUM_BUCKETS + k;
    if idx < NUM_BUCKETS {
      FoundIsReached(a, b, 2 * idx, k);
      FoundIsReached(a, b, 2 * idx + 1, k);
      ReachesThroughChild(a, b, j, idx);
    } else {
      assert j / 2 < idx;
      assert !Reaches(a, b, j / 2, idx);
    }
  }

  lemma {:induction false} PathIsReached(a: MerkleTree, b: MerkleTree, j: nat)
    requires Shaped(a) && Shaped(b) && 1 <= j < 2 * NUM_BUCKETS
    ensures PathDiffers(a, b, j) <==> a.nodes[1] != b.nodes[1] && Reaches(a, b, j, 1)
    decreases j
  {
    if j == 1 {
    } else {
      PathIsReached(a, b, j / 2);
    }
  }

  function Pow2(d: nat): (w: nat)
    ensures w >= 1
  {
    if d == 0 then 1 else 2 * Pow2(d - 1)
  }

  /** Node `idx`, `d` levels above the leaves, has all its leaves in the heap. */
  predicate Above(idx: nat, d: nat) {
    NUM_BUCKETS <= idx * Pow2(d) && (idx + 1) * Pow2(d) <= 2 * NUM_BUCKETS
  }

  lemma {:induction false} Halves(x: nat, h: nat)
    ensures (2 * x) * h == x * (2 * h) && (2 * x + 1) * h == x * (2 * h) + h && (2 * x + 2) * h == (x + 1) * (2 * h)
    ensures h >= 1 ==> x * (2 * h) >= 2 * x
  {
    assert (2 * x) * h == 2 * (x * h) == x * (2 * h);
    assert (2 * x + 1) * h == (2 * x) * h + h;
    assert (2 * x + 2) * h == (2 * (x + 1)) * h == 2 * ((x + 1) * h) == (x + 1) * (2 * h);
    if h >= 1 {
      assert x * h >= x;
    }
  }

  lemma {:induction false} ChildrenAbove(idx: nat, d: nat)
    requires Above(idx, d) && d > 0
    ensures idx < NUM_BUCKETS && Above(2 * idx, d - 1) && Above(2 * idx + 1, d - 1)
    ensures (2 * idx) * Pow2(d - 1) == idx * Pow2(d) && (2 * idx + 2) * Pow2(d - 1) == (idx + 1) * Pow2(d)
  {
    Halves(idx, Pow2(d - 1));
    Halves(idx + 1, Pow2(d - 1));
  }

  /** Ascending lists of leaves, one below `mid` and one from `mid` on, join to an ascending list. */
  lemma {:induction false} Joined(l: seq<nat>, r: seq<nat>, lo: nat, mid: nat, hi: nat)
    requires StrictlyAscending(l) && StrictlyAscending(r) && lo <= mid <= hi
    requires (forall k :: k in l ==> lo <= NUM_BUCKETS + k < mid) && forall k :: k in r ==> mid <= NUM_BUCKETS + k < hi
    ensures StrictlyAscending(l + r) && forall k :: k in l + r ==> lo <= NUM_BUCKETS + k < hi
  {
    forall i, j | 0 <= i < |l| && 0 <= j < |r| ensures l[i] < r[j] {
      assert l[i] in l && r[j] in r;
    }
  }

  /** The reported buckets are strictly ascending, and lie among the leaves of the node. */
  lemma {:induction false} FoundAscends(a: MerkleTree, b: MerkleTree, idx: nat, d: nat)
    requires Shaped(a) && Shaped(b) && Above(idx, d) && 1 <= idx < 2 * NUM_BUCKETS
    ensures StrictlyAscending(Found(a, b, idx))
    ensures forall k :: k in Found(a, b, idx) ==> idx * Pow2(d) <= NUM_BUCKETS + k < (idx + 1) * Pow2(d)
    decreases d
  {
    if d > 0 {
      ChildrenAbove(idx, d);
      FoundAscends(a, b, 2 * idx, d - 1);
      FoundAscends(a, b, 2 * idx + 1, d - 1);
      var l, r := Part(a, b, 2 * idx), Part(a, b, 2 * idx + 1);
      Joined(l, r, idx * Pow2(d), (2 * idx + 1) * Pow2(d - 1), (idx + 1) * Pow2(d));
      FoundParts(a, b, idx, []);
      assert Found(a, b, idx) == l + r;
    } else {
      assert Pow2(d) == 1;
    }
  }

  /** Ascending lists with the same elements are the same list. */
  lemma {:induction false} AscendingUnique(x: seq<nat>, y: seq<nat>)
    requires StrictlyAscending(x) && StrictlyAscending(y) && forall k :: k in x <==> k in y
    ensures x == y
  {
    assert x != [] ==> x[0] in y;
    assert y != [] ==> y[0] in x;
    if x != [] && y != [] {
      assert x[0] == y[0];
      forall k ensures k in x[1..] <==> k in y[1..] {
        assert k in x[1..] <==> k in x && k != x[0];
        assert k in y[1..] <==> k in y && k != y[0];
      }
      AscendingUnique(x[1..], y[1..]);
      assert x == [x[0]] + x[1..] && y == [y[0]] + y[1..];
    }
  }

  /** Bucket `k` differs, and so does every node above it. */
  predicate Reported(a: MerkleTree, b: MerkleTree, k: nat)
    requires Shaped(a) && Shaped(b)
  {
    k < NUM_BUCKETS && a.buckets[k] != b.buckets[k] && PathDiffers(a, b, NUM_BUCKETS + k)
  }

  lemma {:induction false} DescentFromRoot(a: MerkleTree, b: MerkleTree)
    requires Shaped(a) && Shaped(b)
    ensures StrictlyAscending(Found(a, b, 1))
    ensures forall k: nat :: a.nodes[1] != b.nodes[1] && k in Found(a, b, 1) <==> Reported(a, b, k)
  {
    assert Pow2(5) == 32;
    assert Pow2(10) == NUM_BUCKETS;
    FoundAscends(a, b, 1, 10);
    forall k: nat ensures a.nodes[1] != b.nodes[1] && k in Found(a, b, 1) <==> Reported(a, b, k) {
      if k < NUM_BUCKETS {
        FoundIsReached(a, b, 1, k);
        PathIsReached(a, b, NUM_BUCKETS + k);
      }
    }
  }

  /**
   * DiffBuckets, with no assumption about collisions: strictly ascending, and containing exactly
   * the differing buckets all of whose ancestors differ.
   */
  method DiffBuckets(a: MerkleTree, b: MerkleTree) returns (diffs: seq<nat>)
    requires Shaped(a) && Shaped(b)
    ensures StrictlyAscending(diffs)
    ensures forall k: nat :: k in diffs <==> Reported(a, b, k)
  {
    DescentFromRoot(a, b);
    if a.rootHash == b.rootHash {
      return [];
    }
    diffs := DiffSubtree(a, b, 1, []);
    assert diffs == Found(a, b, 1);
  }

  /** All differing buckets, by comparing every pair of bucket hashes. */
  function FullComparison(a: MerkleTree, b: MerkleTree, n: nat): seq<nat>
    requires Shaped(a) && Shaped(b) && n <= NUM_BUCKETS
  {
    if n == 0 then []
    else if a.buckets[n - 1] != b.buckets[n - 1] then FullComparison(a, b, n - 1) + [n - 1]
    else FullComparison(a, b, n - 1)
  }

  lemma {:induction false} FullComparisonIs(a: MerkleTree, b: MerkleTree, n: nat)
    requires Shaped(a) && Shaped(b) && n <= NUM_BUCKETS
    ensures StrictlyAscending(FullComparison(a, b, n))
    ensures forall k: nat :: k in FullComparison(a, b, n) <==> k < n && a.buckets[k] != b.buckets[k]
  {
    if n == 0 {
    } else {
      FullComparisonIs(a, b, n - 1);
      var rest := FullComparison(a, b, n - 1);
      forall i | 0 <= i < |rest| ensures rest[i] < n - 1 {
        assert rest[i] in rest;
      }
    }
  }

  /** Equal hashes at inner node `i` come from equal children. */
  predicate SameOnlyIfChildren(a: MerkleTree, b: MerkleTree, i: nat)
    requires Shaped(a) && Shaped(b) && 1 <= i < NUM_BUCKETS
  {
    a.nodes[i] == b.nodes[i] ==> a.nodes[2 * i] == b.nodes[2 * i] && a.nodes[2 * i + 1] == b.nodes[2 * i + 1]
  }

  /** Wherever two inner nodes agree, so do their children. */
  ghost predicate NoPairCollision(a: MerkleTree, b: MerkleTree)
    requires Shaped(a) && Shaped(b)
  {
    forall i :: 1 <= i < NUM_BUCKETS ==> SameOnlyIfChildren(a, b, i)
  }

  lemma {:induction false} DifferencePropagates(a: MerkleTree, b: MerkleTree, j: nat)
    requires Shaped(a) && Shaped(b) && NoPairCollision(a, b) && 1 <= j < 2 * NUM_BUCKETS && a.nodes[j] != b.nodes[j]
    ensures PathDiffers(a, b, j)
  {
    if j == 1 {
    } else {
      var i := j / 2;
      assert j == 2 * i || j == 2 * i + 1;
      assert SameOnlyIfChildren(a, b, i);
      DifferencePropagates(a, b, i);
    }
  }

  /** Without pair collisions on the two trees the pruned descent equals the full comparison. */
  lemma {:induction false} PrunedEqualsFull(sha: Sha, a: MerkleTree, b: MerkleTree, diffs: seq<nat>)
    requires Built(sha, a) && Built(sha, b) && NoPairCollision(a, b)
    requires StrictlyAscending(diffs) && forall k: nat :: k in diffs <==> Reported(a, b, k)
    ensures diffs == FullComparison(a, b, |a.buckets|)
  {
    FullComparisonIs(a, b, |a.buckets|);
    forall k: nat ensures k in diffs <==> k in FullComparison(a, b, |a.buckets|) {
      if k < NUM_BUCKETS && a.buckets[k] != b.buckets[k] {
        DifferencePropagates(a, b, NUM_BUCKETS + k);
      }
    }
    AscendingUnique(diffs, FullComparison(a, b, |a.buckets|));
  }
}
