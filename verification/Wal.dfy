/** The write-ahead log: an append-only file that is archived when it grows too large. */
module Wal {
  import opened Common
  import opened StorageTypes
  import opened LogFormat

  /** The disk after a rotation check. */
  function Rotated(d: DiskState, maxSize: int): DiskState {
    if |d.log| < maxSize then d else d.(log := [], archives := d.archives + [d.log])
  }

  /** The disk after the first `cut` bytes of a record have reached the log. */
  function PartlyAppended(d: DiskState, maxSize: int, e: LogEntry, cut: nat): DiskState
    requires cut <= RecordSize(e)
  {
    var r := Rotated(d, maxSize);
    r.(log := r.log + Encode(e)[..cut])
  }

  /** The disk after a completed Append. */
  function Appended(d: DiskState, maxSize: int, e: LogEntry): DiskState {
    var r := Rotated(d, maxSize);
    r.(log := r.log + Encode(e))
  }

  /** The disk after an append that may fail: a failed write leaves the rotation, a failed sync the record, too. */
  function AppendOutcome(d: DiskState, maxSize: int, e: LogEntry, fault: AppendFault): DiskState {
    if fault == WriteFails then Rotated(d, maxSize) else Appended(d, maxSize, e)
  }

  function Join(parts: seq<Bytes>): Bytes {
    if parts == [] then [] else parts[0] + Join(parts[1..])
  }

  /** Every byte ever appended, in order, over the archives and the current log. */
  function History(d: DiskState): Bytes {
    Join(d.archives) + d.log
  }

  lemma {:induction false} JoinSnoc(parts: seq<Bytes>, last: Bytes)
    ensures Join(parts + [last]) == Join(parts) + last
  {
    if parts == [] {
      assert parts + [last] == [last];
      assert Join([last]) == last + Join([]);
    } else {
      assert (parts + [last])[1..] == parts[1..] + [last];
      JoinSnoc(parts[1..], last);
      assert parts[0] + (Join(parts[1..]) + last) == parts[0] + Join(parts[1..]) + last;
    }
  }

  /** Rotation moves bytes but loses none: the history grows by exactly the new record. */
  lemma {:induction false} AppendKeepsHistory(d: DiskState, maxSize: int, e: LogEntry)
    ensures History(Appended(d, maxSize, e)) == History(d) + Encode(e)
  {
    var r := Rotated(d, maxSize);
    assert History(r) == History(d) by {
      JoinSnoc(d.archives, d.log);
      assert Join(d.archives) + d.log + [] == Join(d.archives) + d.log;
    }
    assert Join(r.archives) + (r.log + Encode(e)) == Join(r.archives) + r.log + Encode(e);
  }

  class WAL {
    const disk: Disk
    const maxSize: int
    var size: nat

    /** The size field always equals the length of the current log file. */
    ghost predicate Valid()
      reads this, disk
    {
      size == |disk.log|
    }

    /** OpenWAL: a torn tail is neither detected nor trimmed. */
    constructor (disk: Disk, maxSize: int)
      ensures Valid() && this.disk == disk && this.maxSize == maxSize
    {
      this.disk := disk;
      this.maxSize := maxSize;
      this.size := |disk.log|;
    }

    method RotateIfNeeded()
      requires Valid()
      modifies this, disk`log, disk`archives
      ensures Valid() && disk.State() == Rotated(old(disk.State()), maxSize)
    {
      if size < maxSize {
        return;
      }
      disk.archives := disk.archives + [disk.log];
      disk.log := [];
      size := 0;
    }

    method Append(entry: LogEntry, fault: AppendFault) returns (r: Result<()>)
      requires Valid()
      modifies this, disk`log, disk`archives
      ensures Valid() && disk.State() == AppendOutcome(old(disk.State()), maxSize, entry, fault)
      ensures r == if fault == Appends then Ok(()) else Err(LogFailed)
    {
      RotateIfNeeded();
      var buf := BigEndian(Unsigned64(entry.timestamp), 8);
      buf := buf + BigEndian(|entry.key|, 4);
      buf := buf + BigEndian(|entry.value|, 4);
      buf := buf + [entry.op];
      buf := buf + entry.key;
      buf := buf + entry.value;
      if fault == WriteFails {
        return Err(LogFailed);
      }
      disk.log := disk.log + buf;
      size := size + |buf|;
      return if fault == SyncFails then Err(LogFailed) else Ok(());
    }

    /** The reading loop of Replay, proved to compute Parse. */
    method Replay(byteOffset: nat) returns (r: Result<seq<LogEntry>>)
      ensures r == Parse(disk.log, byteOffset)
    {
      var log := disk.log;
      var entries: seq<LogEntry> := [];
      var offset := byteOffset;
      PrependConcat([], [], Parse(log, byteOffset));
      while |log| >= offset + HEADER_SIZE
        invariant Parse(log, byteOffset) == Prepend(entries, Parse(log, offset))
        decreases |log| - offset
      {
        var keyLen, valueLen := KeyLenAt(log, offset), ValueLenAt(log, offset);
        var payload := offset + HEADER_SIZE;
        if keyLen + valueLen > 0 && |log| == payload {
          return Err(TruncatedPayload);
        }
        if |log| < payload + keyLen + valueLen {
          PrependNothing(entries);
          return Ok(entries);
        }
        var key := ReadBytes(log, payload, keyLen);
        var value := ReadBytes(log, payload + keyLen, valueLen);
        var entry := LogEntry(TimestampAt(log, offset), key, value, log[offset + 16], offset);
        PrependConcat(entries, [entry], Parse(log, payload + keyLen + valueLen));
        entries := entries + [entry];
        offset := payload + keyLen + valueLen;
      }
      PrependNothing(entries);
      return Ok(entries);
    }

    method Size() returns (n: nat)
      requires Valid()
      ensures n == |disk.log|
    {
      n := size;
    }
  }
}
