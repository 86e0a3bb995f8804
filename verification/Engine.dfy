/** The storage engine over the log, the memtable and the snapshots. */
module Engine {
  import opened Common
  import opened StorageTypes
  import opened LogFormat
  import opened Wal
  import opened Memtables
  import opened Snapshots
  import opened Recovery

  datatype Value = Value(data: Bytes, timestamp: Int64)

  datatype Config = Config(walMaxSizeBytes: int, snapshotThreshold: int)

  class StorageEngine {
    const cfg: Config
    const disk: Disk
    const wal: WAL
    const memtable: Memtable
    const snapshots: SnapshotManager
    var writeCount: nat
    var closed: bool

    ghost predicate Valid()
      reads this, wal, memtable, disk
    {
      && wal.disk == disk && snapshots.disk == disk && wal.maxSize == cfg.walMaxSizeBytes
      && wal.Valid() && memtable.Valid()
    }

    /** The table clients see. */
    ghost function Live(): Table
      reads this, memtable
    {
      Contents(memtable.tree)
    }

    constructor (cfg: Config, disk: Disk, wal: WAL, memtable: Memtable, snapshots: SnapshotManager)
      requires wal.disk == disk && snapshots.disk == disk && wal.maxSize == cfg.walMaxSizeBytes
      requires wal.Valid() && memtable.Valid()
      ensures Valid() && !closed && writeCount == 0
      ensures this.cfg == cfg && this.disk == disk && this.wal == wal
      ensures this.memtable == memtable && this.snapshots == snapshots
    {
      this.cfg, this.disk, this.wal := cfg, disk, wal;
      this.memtable, this.snapshots := memtable, snapshots;
      writeCount, closed := 0, false;
    }

    /**
     * Put: the log first, then the memtable. The result says whether a background snapshot is due.
     * Nothing changes when the engine is closed or the key is empty; when the log fails, the table
     * and the counter stay, but a record that was not synced is in the log.
     */
    method Put(key: Key, value: Bytes, now: Int64, fault: AppendFault) returns (r: Result<bool>)
      requires Valid() && cfg.snapshotThreshold != 0
      modifies this`writeCount, wal, memtable, disk`log, disk`archives
      ensures Valid()
      ensures closed ==> r == Err(EngineClosed)
      ensures !closed && key == [] ==> r == Err(EmptyKey)
      ensures closed || key == [] ==> disk.State() == old(disk.State())
      ensures !closed && key != [] ==>
                disk.State()
                == AppendOutcome(old(disk.State()), wal.maxSize, LogEntry(now, key, value, OP_PUT, 0), fault)
      ensures !closed && key != [] && fault != Appends ==> r == Err(LogFailed)
      ensures r.Err? ==> Live() == old(Live()) && writeCount == old(writeCount)
      ensures !closed && key != [] && fault == Appends ==>
                && Live() == Applied(old(Live()), LogEntry(now, key, value, OP_PUT, 0))
                && r == Ok(writeCount % cfg.snapshotThreshold == 0) && writeCount == old(writeCount) + 1
    {
      if closed {
        return Err(EngineClosed);
      }
      if key == [] {
        return Err(EmptyKey);
      }
      var appended := wal.Append(LogEntry(now, key, value, OP_PUT, 0), fault);
      if appended.Err? {
        return Err(appended.error);
      }
      memtable.Put(key, value, now);
      writeCount := writeCount + 1;
      r := Ok(writeCount % cfg.snapshotThreshold == 0);
    }

    method Delete(key: Key, now: Int64, fault: AppendFault) returns (r: Result<()>)
      requires Valid()
      modifies wal, memtable, disk`log, disk`archives
      ensures Valid()
      ensures closed ==> r == Err(EngineClosed)
      ensures !closed && key == [] ==> r == Err(EmptyKey)
      ensures closed || key == [] ==> disk.State() == old(disk.State())
      ensures !closed && key != [] ==>
                disk.State()
                == AppendOutcome(old(disk.State()), wal.maxSize, LogEntry(now, key, [], OP_DELETE, 0), fault)
      ensures !closed && key != [] && fault != Appends ==> r == Err(LogFailed)
      ensures r.Err? ==> Live() == old(Live())
      ensures !closed && key != [] && fault == Appends ==>
                r == Ok(()) && Live() == Applied(old(Live()), LogEntry(now, key, [], OP_DELETE, 0))
    {
      if closed {
        return Err(EngineClosed);
      }
      if key == [] {
        return Err(EmptyKey);
      }
      r := wal.Append(LogEntry(now, key, [], OP_DELETE, 0), fault);
      if r.Err? {
        return;
      }
      memtable.Delete(key, now);
    }

    /** Get: a tombstone reads as not found. */
    method Get(key: Key) returns (r: Result<Value>)
      requires Valid()
      ensures closed ==> r == Err(EngineClosed)
      ensures !closed && (key !in Live() || Live()[key].tombstone) ==> r == Err(KeyNotFound)
      ensures !closed && key in Live() && !Live()[key].tombstone ==>
                r == Ok(Value(Live()[key].value, Live()[key].timestamp))
    {
      if closed {
        return Err(EngineClosed);
      }
      var entry := memtable.Get(key);
      if entry == None {
        return Err(KeyNotFound);
      }
      return Ok(Value(entry.value.value, entry.value.timestamp));
    }

    method Scan(start: Key, end: Key) returns (r: Result<seq<Value>>)
      requires Valid()
      ensures closed ==> r == Err(EngineClosed)
      ensures !closed ==> r.Ok? && |r.value| == |Scanned(memtable.tree, start, end)|
      ensures !closed ==> forall i :: 0 <= i < |r.value| ==>
                var e := Scanned(memtable.tree, start, end)[i]; r.value[i] == Value(e.value, e.timestamp)
    {
      if closed {
        return Err(EngineClosed);
      }
      var entries := memtable.Scan(start, end);
      var values: seq<Value> := [];
      for i := 0 to |entries|
        invariant |values| == i
        invariant forall j :: 0 <= j < i ==> values[j] == Value(entries[j].value, entries[j].timestamp)
      {
        values := values + [Value(entries[i].value, entries[i].timestamp)];
      }
      return Ok(values);
    }

    /**
     * takeSnapshot, with no writer in between: the whole memtable and the current log size. A failure
     * to write it is only logged.
     */
    method TakeSnapshot(now: Int64, fault: SnapshotFault, stuck: set<string>)
      requires Valid() && now >= 0
      modifies disk`files
      ensures Valid() && disk.log == old(disk.log) && disk.archives == old(disk.archives) && Live() == old(Live())
      ensures disk.files
           == WriteOutcome(old(disk.files), SnapshotData(now, |disk.log|, memtable.tree), fault, stuck)
    {
      var allEntries := memtable.All();
      var walOffset := wal.Size();
      var written := snapshots.Write(SnapshotData(now, walOffset, allEntries), fault, stuck);
    }

    /** Close: a final snapshot; closing twice does nothing. */
    method Close(now: Int64, fault: SnapshotFault, stuck: set<string>)
      requires Valid() && now >= 0
      modifies this`closed, disk`files
      ensures Valid() && closed && disk.log == old(disk.log) && disk.archives == old(disk.archives)
      ensures Live() == old(Live())
      ensures disk.files
           == if old(closed) then old(disk.files)
              else WriteOutcome(old(disk.files), SnapshotData(now, |disk.log|, memtable.tree), fault, stuck)
    {
      if closed {
        return;
      }
      closed := true;
      TakeSnapshot(now, fault, stuck);
    }
  }

  /** Puts or deletes every snapshot entry, in order. */
  method RestoreSnapshot(mem: Memtable, entries: seq<Entry>)
    requires mem.Valid()
    modifies mem
    ensures mem.Valid() && Contents(mem.tree) == RestoredOn(old(Contents(mem.tree)), entries)
  {
    ghost var before := Contents(mem.tree);
    for i := 0 to |entries|
      invariant mem.Valid() && Contents(mem.tree) == RestoredOn(before, entries[..i])
    {
      var e := entries[i];
      assert entries[..i + 1] == entries[..i] + [e];
      RestoredSnoc(before, entries[..i], e);
      if e.tombstone {
        mem.Delete(e.key, e.timestamp);
      } else {
        mem.Put(e.key, e.value, e.timestamp);
      }
    }
    assert entries[..|entries|] == entries;
  }

  /** Applies every replayed log record, in order. */
  method ApplyLog(mem: Memtable, entries: seq<LogEntry>)
    requires mem.Valid()
    modifies mem
    ensures mem.Valid() && Contents(mem.tree) == Replayed(old(Contents(mem.tree)), entries)
  {
    ghost var before := Contents(mem.tree);
    for i := 0 to |entries|
      invariant mem.Valid() && Contents(mem.tree) == Replayed(before, entries[..i])
    {
      var e := entries[i];
      assert entries[..i + 1] == entries[..i] + [e];
      ReplayedConcat(before, entries[..i], [e]);
      assert Replayed(Contents(mem.tree), [e]) == Applied(Contents(mem.tree), e);
      if e.op == OP_DELETE {
        mem.Delete(e.key, e.timestamp);
      } else {
        mem.Put(e.key, e.value, e.timestamp);
      }
    }
    assert entries[..|entries|] == entries;
  }

  /**
   * Open: loads the latest snapshot, replays the log behind it, and leaves the disk as it is. It fails
   * if that snapshot is unreadable or the log ends in a bare header.
   */
  method Open(disk: Disk, cfg: Config, broken: set<string>) returns (r: Result<StorageEngine>)
    ensures LatestIsBroken(disk.files, broken) ==> r == Err(SnapshotFailed)
    ensures !LatestIsBroken(disk.files, broken) && r.Err? ==> Recover(disk.State()) == Err(r.error)
    ensures r.Ok? ==> fresh(r.value) && fresh(r.value.memtable) && fresh(r.value.wal)
    ensures r.Ok? ==> r.value.Valid() && r.value.disk == disk && r.value.cfg == cfg && !r.value.closed
    ensures r.Ok? ==> Recover(disk.State()) == Ok(r.value.Live())
  {
    var snapMgr := new SnapshotManager(disk);
    var mem := new Memtable();
    var walOffset := 0;
    var loaded := snapMgr.LoadLatest(broken);
    if loaded.Err? {
      return Err(loaded.error);
    }
    var snap := loaded.value;
    if snap.Some? {
      walOffset := snap.value.walOffset;
      RestoreSnapshot(mem, snap.value.entries);
    }
    assert Contents(mem.tree) == BaseTable(disk.State()) && walOffset == BaseOffset(disk.State());
    var wal := new WAL(disk, cfg.walMaxSizeBytes);
    var replayed := wal.Replay(walOffset);
    if replayed.Err? {
      return Err(replayed.error);
    }
    ApplyLog(mem, replayed.value);
    var engine := new StorageEngine(cfg, disk, wal, mem, snapMgr);
    r := Ok(engine);
  }

  /**
   * A shutdown and a restart on the same disk. If the final snapshot is saved and no file is newer,
   * the engine comes back with the same table, even if the log was rotated or has a torn record in
   * the middle; otherwise it comes back with what the disk held before, as after a crash.
   */
  method CloseAndReopen(e: StorageEngine, now: Int64, fault: SnapshotFault, stuck: set<string>)
    returns (r: Result<StorageEngine>)
    requires e.Valid() && !e.closed && WellNamed(e.disk.files) && now >= 0
    modifies e`closed, e.disk`files
    ensures r.Ok? ==> r.value.Valid() && r.value.disk == e.disk
    ensures fault == Saves && !HasNewer(old(e.disk.files), now) ==> r.Ok? && r.value.Live() == old(e.Live())
    ensures fault != Saves || HasNewer(old(e.disk.files), now) ==>
              old(Recover(e.disk.State())) == if r.Ok? then Ok(r.value.Live()) else Err(r.error)
  {
    ghost var before, tree := e.disk.State(), e.memtable.tree;
    e.Close(now, fault, stuck);
    SnapshotOutcomeRecovers(before, SnapshotData(now, |e.disk.log|, tree), fault, stuck);
    r := Open(e.disk, e.cfg, {});
  }

}
