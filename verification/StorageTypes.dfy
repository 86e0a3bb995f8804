/** The records the storage package keeps in memory and on disk. */
module StorageTypes {
  import opened Common

  type Key = Bytes

  const OP_PUT: Byte := 1
  const OP_DELETE: Byte := 2

  /** One record of the write-ahead log. `offset` is filled in by replay only. */
  datatype LogEntry = LogEntry(timestamp: Int64, key: Key, value: Bytes, op: Byte, offset: nat)

  /** One slot of the memtable; a tombstone marks a deleted key. */
  datatype Entry = Entry(key: Key, value: Bytes, timestamp: Int64, tombstone: bool)

  /** The contents of the memtable, as a plain map. */
  type Table = map<Key, Entry>

  datatype SnapshotData = SnapshotData(createdAt: Int64, walOffset: nat, entries: seq<Entry>)

  /** What survives a crash: the current log file, archived logs and the snapshot files by name. */
  datatype DiskState = DiskState(log: Bytes, archives: seq<Bytes>, files: map<string, SnapshotData>)

  /** How an append ends: done, nothing written, or written but not synced. */
  datatype AppendFault = Appends | WriteFails | SyncFails

  /** How writing a snapshot ends: done, or the step that fails. */
  datatype SnapshotFault = Saves | CreateFails | EncodeFails | RenameFails

  class Disk {
    var log: Bytes
    var archives: seq<Bytes>
    var files: map<string, SnapshotData>

    ghost function State(): DiskState
      reads this
    {
      DiskState(log, archives, files)
    }
  }
}
