/** The sorted in-memory table, with its byte and entry accounting. */
module Memtables {
  import opened Common
  import opened Ordering
  import opened StorageTypes

  // ---- the ordered tree as a strictly sorted sequence ----

  ghost predicate KeySorted(t: seq<Entry>) {
    forall i, j :: 0 <= i < j < |t| ==> LexLess(t[i].key, t[j].key)
  }

  /** The tree's ReplaceOrInsert. */
  function Upsert(t: seq<Entry>, e: Entry): seq<Entry> {
    if t == [] || LexLess(e.key, t[0].key) then [e] + t
    else if e.key == t[0].key then [e] + t[1..]
    else [t[0]] + Upsert(t[1..], e)
  }

  /** The tree's Get. */
  function Lookup(t: seq<Entry>, key: Key): Option<Entry> {
    if t == [] then None
    else if t[0].key == key then Some(t[0])
    else Lookup(t[1..], key)
  }

  /** The table a sorted tree stands for. */
  function Contents(t: seq<Entry>): Table {
    if t == [] then map[] else Contents(t[1..])[t[0].key := t[0]]
  }

  lemma {:induction false} ContentsKeys(t: seq<Entry>, key: Key)
    ensures key in Contents(t) <==> exists i :: 0 <= i < |t| && t[i].key == key
  {
    if t == [] {
    } else {
      ContentsKeys(t[1..], key);
      if key in Contents(t[1..]) {
        var i :| 0 <= i < |t[1..]| && t[1..][i].key == key;
        assert t[i + 1].key == key;
      }
      if i :| 0 <= i < |t| && t[i].key == key {
        assert i > 0 ==> t[1..][i - 1].key == key;
      }
    }
  }

  lemma {:induction false} ContentsLookup(t: seq<Entry>, key: Key)
    ensures Lookup(t, key) == if key in Contents(t) then Some(Contents(t)[key]) else None
  {
    if t == [] {
    } else {
      ContentsLookup(t[1..], key);
    }
  }

  /** No two slots share a key, so the table has as many keys as the tree has slots. */
  lemma {:induction false} ContentsSize(t: seq<Entry>)
    requires KeySorted(t)
    ensures |Contents(t)| == |t|
  {
    if t == [] {
    } else {
      ContentsSize(t[1..]);
      ContentsKeys(t[1..], t[0].key);
      LexIrreflexive(t[0].key);
      assert Contents(t).Keys == Contents(t[1..]).Keys + {t[0].key};
    }
  }

  lemma {:induction false} UpsertMembers(t: seq<Entry>, e: Entry)
    ensures forall x :: x in Upsert(t, e) ==> x == e || x in t
  {
    if t == [] {
    } else {
      UpsertMembers(t[1..], e);
    }
  }

  lemma {:induction false} UpsertSorted(t: seq<Entry>, e: Entry)
    requires KeySorted(t)
    ensures KeySorted(Upsert(t, e))
  {
    if t == [] {
    } else if LexLess(e.key, t[0].key) {
      forall j | 0 <= j < |t| ensures LexLess(e.key, t[j].key) {
        if j > 0 {
          LexTransitive(e.key, t[0].key, t[j].key);
        }
      }
    } else if e.key != t[0].key {
      var rest := Upsert(t[1..], e);
      UpsertSorted(t[1..], e);
      UpsertMembers(t[1..], e);
      LexTotal(e.key, t[0].key);
      forall j | 0 <= j < |rest| ensures LexLess(t[0].key, rest[j].key) {
        assert rest[j] in rest;
      }
    }
  }

  lemma {:induction false} UpsertContents(t: seq<Entry>, e: Entry)
    ensures Contents(Upsert(t, e)) == Contents(t)[e.key := e]
  {
    if t == [] {
    } else if LexLess(e.key, t[0].key) {
      assert ([e] + t)[1..] == t;
    } else if e.key == t[0].key {
      assert ([e] + t[1..])[1..] == t[1..];
    } else {
      UpsertContents(t[1..], e);
      assert ([t[0]] + Upsert(t[1..], e))[1..] == Upsert(t[1..], e);
    }
  }

  lemma {:induction false} UpsertKeeps(t: seq<Entry>, e: Entry)
    requires KeySorted(t)
    ensures KeySorted(Upsert(t, e))
    ensures Contents(Upsert(t, e)) == Contents(t)[e.key := e]
    ensures forall x :: x in Upsert(t, e) ==> x == e || x in t
  {
    UpsertSorted(t, e);
    UpsertContents(t, e);
    UpsertMembers(t, e);
  }

  // ---- byte accounting ----

  datatype MemOp = MemPut(key: Key, value: Bytes, timestamp: Int64) | MemDelete(key: Key, timestamp: Int64)

  function OpEntry(op: MemOp): Entry {
    match op
    case MemPut(k, v, ts) => Entry(k, v, ts, false)
    case MemDelete(k, ts) => Entry(k, [], ts, true)
  }

  function Bulk(e: Entry): nat {
    |e.key| + |e.value|
  }

  /** The bytes of the entries that are not tombstones. */
  function LiveBytes(t: seq<Entry>): nat {
    if t == [] then 0 else (if t[0].tombstone then 0 else Bulk(t[0])) + LiveBytes(t[1..])
  }

  /** How one operation changes the size field. */
  function SizeAfter(t: seq<Entry>, size: int, op: MemOp): int {
    var freed := match Lookup(t, op.key) case Some(x) => Bulk(x) case None => 0;
    size - freed + if op.MemPut? then Bulk(OpEntry(op)) else 0
  }

  /** The key bytes freed a second time when an operation overwrites a tombstone. */
  function DoubleFreed(t: seq<Entry>, op: MemOp): nat {
    match Lookup(t, op.key)
    case Some(x) => if x.tombstone then |x.key| else 0
    case None => 0
  }

  function TreeAfter(ops: seq<MemOp>): seq<Entry> {
    if ops == [] then [] else Upsert(TreeAfter(ops[..|ops| - 1]), OpEntry(ops[|ops| - 1]))
  }

  function SizeOverRun(ops: seq<MemOp>): int {
    if ops == [] then 0
    else
      var n := |ops| - 1;
      SizeAfter(TreeAfter(ops[..n]), SizeOverRun(ops[..n]), ops[n])
  }

  function DoubleFreedOverRun(ops: seq<MemOp>): nat {
    if ops == [] then 0
    else
      var n := |ops| - 1;
      DoubleFreedOverRun(ops[..n]) + DoubleFreed(TreeAfter(ops[..n]), ops[n])
  }

  predicate BareTombstones(t: seq<Entry>) {
    forall i :: 0 <= i < |t| && t[i].tombstone ==> t[i].value == []
  }

  lemma {:induction false} UpsertLiveBytes(t: seq<Entry>, e: Entry)
    requires KeySorted(t)
    ensures LiveBytes(Upsert(t, e)) == LiveBytes(t) + (if e.tombstone then 0 else Bulk(e))
         - match Lookup(t, e.key) case Some(x) => (if x.tombstone then 0 else Bulk(x)) case None => 0
  {
    if t == [] {
    } else if LexLess(e.key, t[0].key) {
      LookupBelow(t, e.key);
      assert ([e] + t)[1..] == t;
    } else if e.key == t[0].key {
      assert ([e] + t[1..])[1..] == t[1..];
    } else {
      UpsertLiveBytes(t[1..], e);
      assert ([t[0]] + Upsert(t[1..], e))[1..] == Upsert(t[1..], e);
    }
  }

  lemma {:induction false} LookupBelow(t: seq<Entry>, key: Key)
    requires KeySorted(t) && t != [] && LexLess(key, t[0].key)
    ensures Lookup(t, key) == None
  {
    ContentsLookup(t, key);
    ContentsKeys(t, key);
    if i :| 0 <= i < |t| && t[i].key == key {
      if i > 0 {
        LexTransitive(key, t[0].key, key);
      }
      LexIrreflexive(key);
    }
  }

  lemma {:induction false} LookupMember(t: seq<Entry>, key: Key)
    ensures Lookup(t, key).Some? ==> Lookup(t, key).value in t && Lookup(t, key).value.key == key
  {
    if t == [] {
    } else {
      LookupMember(t[1..], key);
    }
  }

  /**
   * Over every run of operations: the tree is strictly sorted, its tombstones are bare, and the
   * size field is the live bytes less every key length freed twice.
   */
  lemma {:induction false} AccountingOverRun(ops: seq<MemOp>)
    ensures KeySorted(TreeAfter(ops)) && BareTombstones(TreeAfter(ops))
    ensures SizeOverRun(ops) == LiveBytes(TreeAfter(ops)) - DoubleFreedOverRun(ops)
  {
    if ops == [] {
    } else {
      var n := |ops| - 1;
      var t, e := TreeAfter(ops[..n]), OpEntry(ops[n]);
      AccountingOverRun(ops[..n]);
      UpsertKeeps(t, e);
      UpsertLiveBytes(t, e);
      LookupMember(t, e.key);
      assert e.key == ops[n].key;
      forall i | 0 <= i < |Upsert(t, e)| && Upsert(t, e)[i].tombstone ensures Upsert(t, e)[i].value == [] {
        assert Upsert(t, e)[i] in Upsert(t, e);
      }
    }
  }

  /** The i-th operation overwrites a tombstone: it puts or deletes a key that is already deleted. */
  predicate OverwritesTombstone(ops: seq<MemOp>, i: nat)
    requires i < |ops|
  {
    var found := Lookup(TreeAfter(ops[..i]), ops[i].key);
    found.Some? && found.value.tombstone
  }

  ghost predicate TouchesDeleted(ops: seq<MemOp>) {
    exists i :: 0 <= i < |ops| && OverwritesTombstone(ops, i)
  }

  lemma {:induction false} PrefixOverwrites(ops: seq<MemOp>, n: nat, i: nat)
    requires i < n <= |ops|
    ensures OverwritesTombstone(ops[..n], i) == OverwritesTombstone(ops, i)
  {
    assert ops[..n][..i] == ops[..i];
  }

  lemma {:induction false} DoubleFreedZero(ops: seq<MemOp>)
    requires forall i :: 0 <= i < |ops| ==> ops[i].key != []
    ensures DoubleFreedOverRun(ops) == 0 <==> !TouchesDeleted(ops)
  {
    if ops == [] {
    } else {
      var n := |ops| - 1;
      DoubleFreedZero(ops[..n]);
      LookupMember(TreeAfter(ops[..n]), ops[n].key);
      assert DoubleFreed(TreeAfter(ops[..n]), ops[n]) == 0 <==> !OverwritesTombstone(ops, n);
      forall i | 0 <= i < n ensures OverwritesTombstone(ops[..n], i) == OverwritesTombstone(ops, i) {
        PrefixOverwrites(ops, n, i);
      }
      assert TouchesDeleted(ops[..n]) ==> TouchesDeleted(ops);
    }
  }

  /** With non-empty keys, Size() is the live bytes exactly when no deleted key is ever touched again. */
  lemma {:induction false} SizeIsLiveBytesIff(ops: seq<MemOp>)
    requires forall i :: 0 <= i < |ops| ==> ops[i].key != []
    ensures SizeOverRun(ops) == LiveBytes(TreeAfter(ops)) <==> !TouchesDeleted(ops)
  {
    AccountingOverRun(ops);
    DoubleFreedZero(ops);
  }

  /** The shortest failing run: a key put, deleted and put again counts its own length twice. */
  lemma {:induction false} SizeUndercounts(key: Key, v: Bytes, w: Bytes, t0: Int64, t1: Int64, t2: Int64)
    requires key != []
    ensures var ops := [MemPut(key, v, t0), MemDelete(key, t1), MemPut(key, w, t2)];
            TouchesDeleted(ops) && SizeOverRun(ops) == LiveBytes(TreeAfter(ops)) - |key|
  {
    var none: seq<MemOp> := [];
    var ops := [MemPut(key, v, t0), MemDelete(key, t1), MemPut(key, w, t2)];
    assert ops[..2][..1] == ops[..1] && ops[..1][..0] == none && ops[..2][1] == ops[1] && ops[..1][0] == ops[0];
    assert TreeAfter(ops[..1]) == [Entry(key, v, t0, false)];
    LexIrreflexive(key);
    assert TreeAfter(ops[..2]) == [Entry(key, [], t1, true)];
    assert OverwritesTombstone(ops, 2);
    AccountingOverRun(ops);
    assert DoubleFreedOverRun(ops[..1]) == 0;
    assert DoubleFreedOverRun(ops[..2]) == DoubleFreed(TreeAfter(ops[..1]), ops[1]) == 0;
  }

  // ---- range scans ----

  predicate InScan(e: Entry, start: Key, end: Key) {
    LexLeq(start, e.key) && LexLess(e.key, end) && !e.tombstone
  }

  function Scanned(t: seq<Entry>, start: Key, end: Key): seq<Entry> {
    Filter(t, (e: Entry) => InScan(e, start, end))
  }

  /** A filtered sorted tree is still sorted. */
  lemma {:induction false} FilterKeySorted(t: seq<Entry>, keep: Entry -> bool)
    requires KeySorted(t)
    ensures KeySorted(Filter(t, keep))
  {
    if t == [] {
    } else {
      var rest := Filter(t[1..], keep);
      FilterKeySorted(t[1..], keep);
      forall j | 0 <= j < |rest| ensures LexLess(t[0].key, rest[j].key) {
        FilterMember(t[1..], keep, rest[j]);
        assert rest[j] in rest;
        var i :| 0 <= i < |t[1..]| && t[1..][i] == rest[j];
        assert t[i + 1] == rest[j];
      }
    }
  }

  /** The slots that are not tombstones. */
  function LiveSlots(t: seq<Entry>): seq<Entry> {
    if t == [] then []
    else if t[0].tombstone then LiveSlots(t[1..])
    else [t[0]] + LiveSlots(t[1..])
  }

  /** A scan is the live part of one stretch of the tree. */
  lemma {:induction false} ScanIsStretch(t: seq<Entry>, start: Key, end: Key, i: nat, j: nat)
    requires i <= j <= |t|
    requires forall k :: 0 <= k < i ==> LexLess(t[k].key, start)
    requires forall k :: i <= k < j ==> LexLeq(start, t[k].key) && LexLess(t[k].key, end)
    requires forall k :: j <= k < |t| ==> LexLeq(end, t[k].key)
    ensures Scanned(t, start, end) == LiveSlots(t[i..j])
    decreases t
  {
    if t == [] {
    } else if i > 0 {
      ScanIsStretch(t[1..], start, end, i - 1, j - 1);
      assert t[1..][i - 1..j - 1] == t[i..j];
    } else if j > 0 {
      ScanIsStretch(t[1..], start, end, 0, j - 1);
      assert t[0..j][1..] == t[1..][0..j - 1];
    } else {
      ScanIsStretch(t[1..], start, end, 0, 0);
    }
  }

  /** The first position in a sorted tree whose key is not below `key`. */
  lemma {:induction false} LowerBound(t: seq<Entry>, key: Key) returns (i: nat)
    requires KeySorted(t)
    ensures i <= |t| && (forall k :: 0 <= k < i ==> LexLess(t[k].key, key))
    ensures forall k :: i <= k < |t| ==> LexLeq(key, t[k].key)
  {
    if t == [] || !LexLess(t[|t| - 1].key, key) {
      if t == [] {
        i := 0;
      } else {
        i := LowerBound(t[..|t| - 1], key);
      }
    } else {
      i := |t|;
      forall k | 0 <= k < |t| ensures LexLess(t[k].key, key) {
        if k < |t| - 1 {
          LexTransitive(t[k].key, t[|t| - 1].key, key);
        }
      }
    }
  }

  /**
   * Scan over the half-open range, for every start and end: the sorted tree falls into the keys below
   * the start, those from the start to below the end, and those from the end on; the result is the
   * live part of the middle. If the end is not above the start there is no middle.
   */
  lemma {:induction false} ScanIsHalfOpen(t: seq<Entry>, start: Key, end: Key) returns (i: nat, j: nat)
    requires KeySorted(t)
    ensures i <= j <= |t| && (forall k :: 0 <= k < i ==> LexLess(t[k].key, start))
    ensures forall k :: i <= k < j ==> LexLeq(start, t[k].key) && LexLess(t[k].key, end)
    ensures LexLess(start, end) ==> forall k :: j <= k < |t| ==> LexLeq(end, t[k].key)
    ensures !LexLess(start, end) ==> i == j
    ensures Scanned(t, start, end) == LiveSlots(t[i..j])
  {
    i := LowerBound(t, start);
    if LexLess(start, end) {
      j := LowerBound(t, end);
      if j < i {
        LexLessLeqClash(t[j].key, start, end);
        assert false;
      }
      ScanIsStretch(t, start, end, i, j);
    } else {
      j := i;
      forall e: Entry ensures !InScan(e, start, end) {
        if InScan(e, start, end) {
          LexLeqTransitive(end, start, e.key);
        }
      }
      FilterNone(t, (e: Entry) => InScan(e, start, end));
      assert t[i..j] == [];
    }
  }

  lemma {:induction false} LexLessLeqClash(key: Key, start: Key, end: Key)
    requires LexLess(key, start) && LexLess(start, end)
    ensures !LexLeq(end, key)
  {
    LexTransitive(key, start, end);
  }

  /** A scan over two adjacent ranges is the two scans one after the other. */
  lemma {:induction false} ScanSplits(t: seq<Entry>, a: Key, b: Key, c: Key)
    requires KeySorted(t) && LexLeq(a, b) && LexLeq(b, c)
    ensures Scanned(t, a, c) == Scanned(t, a, b) + Scanned(t, b, c)
  {
    var i := LowerBound(t, a);
    var j := LowerBound(t, b);
    var k := LowerBound(t, c);
    BoundsAscend(t, a, b, i, j);
    BoundsAscend(t, b, c, j, k);
    Stretches(t, a, b, i, j);
    Stretches(t, b, c, j, k);
    LexLeqTransitive(a, b, c);
    Stretches(t, a, c, i, k);
    assert t[i..k] == t[i..j] + t[j..k];
    LiveSlotsConcat(t[i..j], t[j..k]);
  }

  lemma {:induction false} BoundsAscend(t: seq<Entry>, a: Key, b: Key, i: nat, j: nat)
    requires i <= |t| && j <= |t| && LexLeq(a, b)
    requires (forall k :: 0 <= k < i ==> LexLess(t[k].key, a)) && forall k :: j <= k < |t| ==> LexLeq(b, t[k].key)
    ensures i <= j
  {
    if j < i {
      LexLeqTransitive(a, b, t[j].key);
      assert false;
    }
  }

  lemma {:induction false} Stretches(t: seq<Entry>, a: Key, b: Key, i: nat, j: nat)
    requires i <= j <= |t| && (forall k :: 0 <= k < i ==> LexLess(t[k].key, a))
    requires (forall k :: i <= k < |t| ==> LexLeq(a, t[k].key)) && forall k :: 0 <= k < j ==> LexLess(t[k].key, b)
    requires forall k :: j <= k < |t| ==> LexLeq(b, t[k].key)
    ensures Scanned(t, a, b) == LiveSlots(t[i..j])
  {
    ScanIsStretch(t, a, b, i, j);
  }

  lemma {:induction false} LiveSlotsConcat(a: seq<Entry>, b: seq<Entry>)
    ensures LiveSlots(a + b) == LiveSlots(a) + LiveSlots(b)
  {
    if a == [] {
      assert a + b == b;
    } else {
      assert (a + b)[1..] == a[1..] + b;
      LiveSlotsConcat(a[1..], b);
    }
  }

  /** Keys between a prefix and the prefix followed by 0xff. */
  lemma {:induction false} PrefixRange(prefix: Key, key: Key)
    ensures LexLeq(prefix, key) && LexLess(key, prefix + [255])
       <==> prefix <= key && (|key| == |prefix| || key[|prefix|] < 255)
  {
    if prefix != [] && key != [] && prefix[0] == key[0] {
      PrefixRange(prefix[1..], key[1..]);
      assert (prefix + [255])[1..] == prefix[1..] + [255];
      assert prefix <= key <==> prefix[1..] <= key[1..] by {
        assert prefix == [prefix[0]] + prefix[1..] && key == [key[0]] + key[1..];
      }
    } else if prefix == [] {
      assert prefix + [255] == [255];
      if key != [] {
        assert LexLess(key, [255]) <==> key[0] < 255 || (key[0] == 255 && LexLess(key[1..], []));
      }
    } else if key != [] {
      assert (prefix + [255])[0] == prefix[0];
    }
  }

  /**
   * The HTTP prefix scan: in key order, exactly the live entries whose key starts with the prefix,
   * except those whose next byte is 0xff.
   */
  lemma {:induction false} PrefixScan(t: seq<Entry>, prefix: Key, e: Entry)
    requires KeySorted(t)
    ensures KeySorted(Scanned(t, prefix, prefix + [255]))
    ensures e in Scanned(t, prefix, prefix + [255])
       <==> e in t && !e.tombstone && prefix <= e.key && (|e.key| == |prefix| || e.key[|prefix|] < 255)
  {
    var keep := (x: Entry) => InScan(x, prefix, prefix + [255]);
    FilterKeySorted(t, keep);
    FilterMember(t, keep, e);
    PrefixRange(prefix, e.key);
  }

  // ---- the mutable table ----

  class Memtable {
    var tree: seq<Entry>
    var size: int
    var count: int

    ghost predicate Valid()
      reads this
    {
      KeySorted(tree) && BareTombstones(tree) && count == |tree|
    }

    constructor ()
      ensures Valid() && tree == [] && size == 0
    {
      tree, size, count := [], 0, 0;
    }

    method Put(key: Key, value: Bytes, timestamp: Int64)
      requires Valid()
      modifies this
      ensures Valid()
      ensures tree == Upsert(old(tree), Entry(key, value, timestamp, false))
      ensures Contents(tree) == old(Contents(tree))[key := Entry(key, value, timestamp, false)]
      ensures size == SizeAfter(old(tree), old(size), MemPut(key, value, timestamp))
    {
      var existing := Lookup(tree, key);
      if existing.Some? {
        size := size - (|existing.value.key| + |existing.value.value|);
        count := count - 1;
      }
      var entry := Entry(key, value, timestamp, false);
      Inserted(tree, entry);
      tree := Upsert(tree, entry);
      size := size + (|key| + |value|);
      count := count + 1;
    }

    method Delete(key: Key, timestamp: Int64)
      requires Valid()
      modifies this
      ensures Valid()
      ensures tree == Upsert(old(tree), Entry(key, [], timestamp, true))
      ensures Contents(tree) == old(Contents(tree))[key := Entry(key, [], timestamp, true)]
      ensures size == SizeAfter(old(tree), old(size), MemDelete(key, timestamp))
    {
      var existing := Lookup(tree, key);
      if existing.Some? {
        size := size - (|existing.value.key| + |existing.value.value|);
        count := count - 1;
      }
      var entry := Entry(key, [], timestamp, true);
      Inserted(tree, entry);
      tree := Upsert(tree, entry);
      count := count + 1;
    }

    method Get(key: Key) returns (r: Option<Entry>)
      ensures r == if key in Contents(tree) && !Contents(tree)[key].tombstone then Some(Contents(tree)[key]) else None
    {
      ContentsLookup(tree, key);
      var found := Lookup(tree, key);
      if found == None || found.value.tombstone {
        return None;
      }
      return found;
    }

    method Scan(start: Key, end: Key) returns (results: seq<Entry>)
      ensures results == Scanned(tree, start, end)
    {
      results := [];
      ghost var keep := (e: Entry) => InScan(e, start, end);
      for i := 0 to |tree|
        invariant results == Filter(tree[..i], keep)
      {
        assert tree[..i + 1] == tree[..i] + [tree[i]];
        FilterSnoc(tree[..i], tree[i], keep);
        if InScan(tree[i], start, end) {
          results := results + [tree[i]];
        }
      }
      assert tree[..|tree|] == tree;
    }

    method All() returns (entries: seq<Entry>)
      requires Valid()
      ensures entries == tree && |entries| == count == |Contents(tree)| && KeySorted(entries)
    {
      entries := [];
      for i := 0 to |tree|
        invariant entries == tree[..i]
      {
        entries := entries + [tree[i]];
      }
      ContentsSize(tree);
    }
  }

  /** What one insertion does to the sorted tree, its contents, its tombstones and its length. */
  lemma {:induction false} Inserted(t: seq<Entry>, e: Entry)
    requires KeySorted(t) && BareTombstones(t) && (e.tombstone ==> e.value == [])
    ensures KeySorted(Upsert(t, e)) && BareTombstones(Upsert(t, e))
    ensures Contents(Upsert(t, e)) == Contents(t)[e.key := e]
    ensures |Upsert(t, e)| == |t| + (if Lookup(t, e.key).Some? then 0 else 1)
    ensures Lookup(t, e.key).Some? ==> Lookup(t, e.key).value.key == e.key
  {
    UpsertKeeps(t, e);
    ContentsSize(t);
    ContentsSize(Upsert(t, e));
    ContentsLookup(t, e.key);
    LookupMember(t, e.key);
    forall i | 0 <= i < |Upsert(t, e)| && Upsert(t, e)[i].tombstone ensures Upsert(t, e)[i].value == [] {
      assert Upsert(t, e)[i] in Upsert(t, e);
    }
  }
}
