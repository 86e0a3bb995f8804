/** What Open rebuilds from a disk, and how snapshot offsets and replayed records fit together. */
module Recovery {
  import opened Common
  import opened Ordering
  import opened StorageTypes
  import opened LogFormat
  import opened Memtables
  import opened Snapshots

  /** The memtable slot a log record stands for. */
  function ToEntry(e: LogEntry): Entry {
    if e.op == OP_DELETE then Entry(e.key, [], e.timestamp, true) else Entry(e.key, e.value, e.timestamp, false)
  }

  function Applied(m: Table, e: LogEntry): Table {
    m[e.key := ToEntry(e)]
  }

  /** The table after applying log records in order. */
  function Replayed(m: Table, es: seq<LogEntry>): Table
    decreases es
  {
    if es == [] then m else Replayed(Applied(m, es[0]), es[1..])
  }

  /** The table after putting or deleting every snapshot entry in order. */
  function RestoredOn(m: Table, entries: seq<Entry>): Table
    decreases entries
  {
    if entries == [] then m
    else
      var e := entries[0];
      RestoredOn(m[e.key := if e.tombstone then Entry(e.key, [], e.timestamp, true) else e], entries[1..])
  }

  function Restored(entries: seq<Entry>): Table {
    RestoredOn(map[], entries)
  }

  ghost function BaseTable(d: DiskState): Table {
    match Latest(d.files)
    case Some(snap) => Restored(snap.entries)
    case None => map[]
  }

  ghost function BaseOffset(d: DiskState): nat {
    match Latest(d.files)
    case Some(snap) => snap.walOffset
    case None => 0
  }

  /** The table Open builds: the latest snapshot, then the log from the snapshot's offset on. */
  ghost function Recover(d: DiskState): Result<Table> {
    match Parse(d.log, BaseOffset(d))
    case Ok(es) => Ok(Replayed(BaseTable(d), es))
    case Err(e) => Err(e)
  }

  // ---- folds ----

  lemma {:induction false} ReplayedConcat(m: Table, a: seq<LogEntry>, b: seq<LogEntry>)
    ensures Replayed(m, a + b) == Replayed(Replayed(m, a), b)
    decreases a
  {
    if a == [] {
      assert a + b == b;
    } else {
      assert (a + b)[1..] == a[1..] + b;
      ReplayedConcat(Applied(m, a[0]), a[1..], b);
    }
  }

  lemma {:induction false} OffsetsDoNotMatter(m: Table, es: seq<LogEntry>, at: nat)
    ensures Replayed(m, WithOffsets(es, at)) == Replayed(m, es)
    decreases es
  {
    if es == [] {
    } else {
      assert WithOffsets(es, at)[1..] == WithOffsets(es[1..], at + RecordSize(es[0]));
      OffsetsDoNotMatter(Applied(m, es[0]), es[1..], at + RecordSize(es[0]));
    }
  }

  lemma {:induction false} RestoredSnoc(m: Table, entries: seq<Entry>, e: Entry)
    ensures RestoredOn(m, entries + [e])
         == RestoredOn(m, entries)[e.key := if e.tombstone then Entry(e.key, [], e.timestamp, true) else e]
    decreases entries
  {
    if entries == [] {
      assert entries + [e] == [e];
      assert [e][1..] == [];
    } else {
      assert (entries + [e])[1..] == entries[1..] + [e];
      var x := entries[0];
      RestoredSnoc(m[x.key := if x.tombstone then Entry(x.key, [], x.timestamp, true) else x], entries[1..], e);
    }
  }

  lemma {:induction false} RestoredOnSorted(m: Table, t: seq<Entry>)
    requires KeySorted(t) && BareTombstones(t)
    ensures RestoredOn(m, t) == m + Contents(t)
    decreases t
  {
    if t == [] {
      assert m + Contents(t) == m;
    } else {
      assert t[0].tombstone ==> t[0] == Entry(t[0].key, [], t[0].timestamp, true);
      var m' := m[t[0].key := t[0]];
      forall i | 0 <= i < |t[1..]| && t[1..][i].tombstone ensures t[1..][i].value == [] {
        assert t[1..][i] == t[i + 1];
      }
      RestoredOnSorted(m', t[1..]);
      HeadNotInTail(t);
      assert m' + Contents(t[1..]) == m + Contents(t);
    }
  }

  lemma {:induction false} HeadNotInTail(t: seq<Entry>)
    requires KeySorted(t) && t != []
    ensures t[0].key !in Contents(t[1..])
  {
    ContentsKeys(t[1..], t[0].key);
    LexIrreflexive(t[0].key);
  }

  /** A snapshot of the memtable restores exactly the memtable, tombstones included. */
  lemma {:induction false} SnapshotRestores(t: seq<Entry>)
    requires KeySorted(t) && BareTombstones(t)
    ensures Restored(t) == Contents(t)
  {
    RestoredOnSorted(map[], t);
    assert map[] + Contents(t) == Contents(t);
  }

  // ---- the last write decides ----

  function Find(m: Table, key: Key): Option<Entry> {
    if key in m then Some(m[key]) else None
  }

  /** The slot left by the last record for `key`, if there is one. */
  function LastWrite(es: seq<LogEntry>, key: Key): Option<Entry> {
    if es == [] then None
    else if es[|es| - 1].key == key then Some(ToEntry(es[|es| - 1]))
    else LastWrite(es[..|es| - 1], key)
  }

  function Or(a: Option<Entry>, b: Option<Entry>): Option<Entry> {
    if a.Some? then a else b
  }

  lemma {:induction false} LastWriteDecides(m: Table, es: seq<LogEntry>, key: Key)
    ensures Find(Replayed(m, es), key) == Or(LastWrite(es, key), Find(m, key))
  {
    if es == [] {
    } else {
      var n := |es| - 1;
      LastWriteDecides(m, es[..n], key);
      assert es == es[..n] + [es[n]];
      ReplayedConcat(m, es[..n], [es[n]]);
      assert Replayed(Replayed(m, es[..n]), [es[n]]) == Applied(Replayed(m, es[..n]), es[n]);
    }
  }

  lemma {:induction false} LastWriteConcat(a: seq<LogEntry>, b: seq<LogEntry>, key: Key)
    ensures LastWrite(a + b, key) == Or(LastWrite(b, key), LastWrite(a, key))
  {
    if b == [] {
      assert a + b == a;
    } else {
      var n := |b| - 1;
      assert (a + b)[..|a + b| - 1] == a + b[..n];
      LastWriteConcat(a, b[..n], key);
    }
  }

  lemma {:induction false} SameFinds(a: Table, b: Table)
    requires forall k :: Find(a, k) == Find(b, k)
    ensures a == b
  {
    forall k ensures k in a <==> k in b {
      assert Find(a, k) == Find(b, k);
    }
    forall k | k in a ensures a[k] == b[k] {
      assert Find(a, k) == Find(b, k);
    }
  }

  /** Replaying records a snapshot already reflects is harmless. */
  lemma {:induction false} OverlapIsHarmless(m: Table, before: seq<LogEntry>, overlap: seq<LogEntry>,
      after: seq<LogEntry>)
    ensures Replayed(Replayed(m, before + overlap), overlap + after) == Replayed(m, before + overlap + after)
  {
    var snap := Replayed(m, before + overlap);
    var x, y := Replayed(snap, overlap + after), Replayed(m, before + overlap + after);
    forall k ensures Find(x, k) == Find(y, k) {
      LastWriteDecides(snap, overlap + after, k);
      LastWriteDecides(m, before + overlap, k);
      LastWriteDecides(m, before + overlap + after, k);
      LastWriteConcat(before + overlap, after, k);
      LastWriteConcat(before, overlap, k);
      LastWriteConcat(overlap, after, k);
    }
    SameFinds(x, y);
  }

  /** The last write to `key` is in the gap between a snapshot's contents and its offset. */
  predicate LastInGap(gap: seq<LogEntry>, after: seq<LogEntry>, key: Key) {
    LastWrite(after, key).None? && LastWrite(gap, key).Some?
  }

  /**
   * Skipping a gap of records loses exactly the keys whose last write lies in the gap: those keep
   * the older slot, all others are as if nothing had been skipped.
   */
  lemma {:induction false} GapLosesExactly(m: Table, before: seq<LogEntry>, gap: seq<LogEntry>, after: seq<LogEntry>,
                                           key: Key)
    ensures var live, got := Replayed(m, before + gap + after), Replayed(Replayed(m, before), after);
            && (!LastInGap(gap, after, key) ==> Find(got, key) == Find(live, key))
            && (LastInGap(gap, after, key) ==>
                 Find(got, key) == Find(Replayed(m, before), key) && Find(live, key) == LastWrite(gap, key))
  {
    LastWriteDecides(Replayed(m, before), after, key);
    LastWriteDecides(m, before, key);
    LastWriteDecides(m, before + gap + after, key);
    LastWriteConcat(before + gap, after, key);
    LastWriteConcat(before, gap, key);
  }

  /** Skipping a gap gives the same table exactly if every key last written in it already had that very slot. */
  lemma {:induction false} GapRebuildsIff(m: Table, before: seq<LogEntry>, gap: seq<LogEntry>, after: seq<LogEntry>)
    ensures Replayed(Replayed(m, before), after) == Replayed(m, before + gap + after)
       <==> forall k :: LastInGap(gap, after, k) ==> LastWrite(gap, k) == Find(Replayed(m, before), k)
  {
    var live, got := Replayed(m, before + gap + after), Replayed(Replayed(m, before), after);
    forall k
      ensures Find(got, k) == Find(live, k)
         <==> (LastInGap(gap, after, k) ==> LastWrite(gap, k) == Find(Replayed(m, before), k))
    {
      GapLosesExactly(m, before, gap, after, k);
    }
    if forall k :: LastInGap(gap, after, k) ==> LastWrite(gap, k) == Find(Replayed(m, before), k) {
      SameFinds(got, live);
    }
  }

  // ---- the same, on disk ----

  /** From its base offset to the end, the log consists of the records `es`. */
  lemma {:induction false} RecoverWhole(d: DiskState, es: seq<LogEntry>)
    requires AllFit(es) && BaseOffset(d) <= |d.log| && d.log[BaseOffset(d)..] == EncodeAll(es)
    ensures Recover(d) == Ok(Replayed(BaseTable(d), es))
  {
    ReplayUndoesAppend(d.log, BaseOffset(d), es);
    OffsetsDoNotMatter(BaseTable(d), es, BaseOffset(d));
  }

  /** The same with a partly written record at the end. */
  lemma {:induction false} RecoverTorn(d: DiskState, es: seq<LogEntry>, end: nat, e: LogEntry, cut: nat)
    requires AllFit(es) && Fits(e) && cut < RecordSize(e) && BaseOffset(d) <= end <= |d.log|
    requires d.log[BaseOffset(d)..end] == EncodeAll(es) && d.log[end..] == Encode(e)[..cut]
    ensures Recover(d) == if HeaderOnlyCut(e, cut) then Err(TruncatedPayload) else Ok(Replayed(BaseTable(d), es))
  {
    TornTailReplay(d.log, BaseOffset(d), es, end, e, cut);
    OffsetsDoNotMatter(BaseTable(d), es, BaseOffset(d));
  }

  /**
   * A snapshot whose offset is a record boundary at or before the point it reflects: Open rebuilds
   * the live table.
   */
  lemma {:induction false} EarlyOffsetRecovers(d: DiskState, m: Table, before: seq<LogEntry>, overlap: seq<LogEntry>,
      after: seq<LogEntry>)
    requires AllFit(overlap + after) && BaseTable(d) == Replayed(m, before + overlap)
    requires BaseOffset(d) <= |d.log| && d.log[BaseOffset(d)..] == EncodeAll(overlap + after)
    ensures Recover(d) == Ok(Replayed(m, before + overlap + after))
  {
    RecoverWhole(d, overlap + after);
    OverlapIsHarmless(m, before, overlap, after);
  }

  /**
   * A snapshot whose offset is past the point it reflects, as when a write lands between reading
   * the memtable and reading the log size: Open rebuilds the live table if and only if every key
   * whose last write fell into the gap already had that very slot.
   */
  lemma {:induction false} LateOffsetRecovers(d: DiskState, m: Table, before: seq<LogEntry>, gap: seq<LogEntry>,
      after: seq<LogEntry>)
    requires AllFit(after) && BaseTable(d) == Replayed(m, before)
    requires BaseOffset(d) <= |d.log| && d.log[BaseOffset(d)..] == EncodeAll(after)
    ensures Recover(d) == Ok(Replayed(m, before + gap + after))
       <==> forall k :: LastInGap(gap, after, k) ==> LastWrite(gap, k) == Find(Replayed(m, before), k)
  {
    RecoverWhole(d, after);
    GapRebuildsIff(m, before, gap, after);
  }

  /** Past the end of a rotated log there is nothing to replay: only the snapshot survives. */
  lemma {:induction false} OffsetPastEndRecovers(d: DiskState)
    requires |d.log| <= BaseOffset(d)
    ensures Recover(d) == Ok(BaseTable(d))
  {
    assert Parse(d.log, BaseOffset(d)) == Ok([]);
  }

  /**
   * What a disk recovers to after a snapshot of the current table and log: that table, if the snapshot
   * was saved and no file is newer, and otherwise what it recovered to before.
   */
  lemma {:induction false} SnapshotOutcomeRecovers(d: DiskState, data: SnapshotData, fault: SnapshotFault,
      stuck: set<string>)
    requires WellNamed(d.files) && data.createdAt >= 0 && data.walOffset == |d.log|
    requires KeySorted(data.entries) && BareTombstones(data.entries)
    ensures Recover(d.(files := WriteOutcome(d.files, data, fault, stuck)))
         == if fault == Saves && !HasNewer(d.files, data.createdAt) then Ok(Contents(data.entries)) else Recover(d)
  {
    var t := d.(files := WriteOutcome(d.files, data, fault, stuck));
    if fault == Saves {
      WriteBecomesLatestIff(d.files, data, stuck);
    } else {
      FailedWriteIsInvisible(d.files, data, fault, stuck);
    }
    if fault == Saves && !HasNewer(d.files, data.createdAt) {
      SnapshotRestores(data.entries);
      assert t.log[|t.log|..] == [] == EncodeAll([]);
      RecoverWhole(t, []);
    }
  }
}
