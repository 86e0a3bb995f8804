/**
 * Runs that leave the clean states: why each condition in the recovery theorem is there.
 * The code behaves as shown; these are its limits, not those of the model.
 */
module EngineGaps {
  import opened Common
  import opened StorageTypes
  import opened LogFormat
  import opened Wal
  import opened Snapshots
  import opened Recovery
  import opened EngineRuns

  /** A non-zero first byte makes a 32-bit field at least 2^24. */
  lemma {:induction false} LeadingByte(s: Bytes, at: nat)
    requires at + 4 <= |s|
    ensures NumberAt(s, at, 4) >= 0x100_0000 * (s[at] as int)
  {
    assert NumberAt(s, at, 1) == 256 * NumberAt(s, at, 0) + s[at];
    assert NumberAt(s, at, 2) >= 256 * NumberAt(s, at, 1);
    assert NumberAt(s, at, 3) >= 256 * NumberAt(s, at, 2);
    assert NumberAt(s, at, 4) >= 256 * NumberAt(s, at, 3);
  }

  /** The twelfth byte of a record is the low byte of its key length. */
  lemma {:induction false} KeyLengthByte(e: LogEntry)
    ensures Encode(e)[11] == |e.key| % 256
  {
    assert Encode(e)[11] == Header(e)[11] == BigEndian(|e.key|, 4)[3];
  }

  /**
   * One byte of a torn record in front hides everything appended behind it: replay reads a huge
   * value length out of step, and quietly stops, as long as the log stays below 2^24 bytes.
   */
  lemma {:induction false} TornByteHidesLog(log: Bytes, at: nat, torn: Byte, e: LogEntry, more: Bytes)
    requires at < |log| && log[at] == torn && log[at + 1..] == Encode(e) + more
    requires |e.key| % 256 != 0 && RecordSize(e) + |more| < 0x100_0000
    ensures Parse(log, at) == Ok([])
  {
    KeyLengthByte(e);
    assert log[at + 12] == log[at + 1..][11] == Encode(e)[11];
    assert |log| == at + 1 + RecordSize(e) + |more|;
    LeadingByte(log, at + 12);
    assert ValueLenAt(log, at) >= 0x100_0000;
    assert RecordEnd(log, at) > |log|;
  }

  lemma {:induction false} RunSnoc(s: System, steps: seq<Step>, step: Step, maxSize: int)
    requires IsRun(s, steps, maxSize) && Enabled(After(s, steps, maxSize), step)
    ensures IsRun(s, steps + [step], maxSize)
    ensures After(s, steps + [step], maxSize) == Next(After(s, steps, maxSize), step, maxSize)
    decreases steps
  {
    if steps == [] {
      assert steps + [step] == [step] && [step][1..] == [];
    } else {
      assert (steps + [step])[0] == steps[0] && (steps + [step])[1..] == steps[1..] + [step];
      RunSnoc(Next(s, steps[0], maxSize), steps[1..], step, maxSize);
    }
  }

  lemma {:induction false} ReachableNext(s: System, step: Step, maxSize: int)
    requires Reachable(s, maxSize) && Enabled(s, step)
    ensures Reachable(Next(s, step, maxSize), maxSize)
  {
    var start: System, steps: seq<Step> :|
      IsInitial(start) && IsRun(start, steps, maxSize) && After(start, steps, maxSize) == s;
    RunSnoc(start, steps, step, maxSize);
    assert IsRun(start, steps + [step], maxSize);
  }

  /** The engine after its first start on an empty disk. */
  lemma {:induction false} FirstStart(maxSize: int) returns (s: System)
    ensures Reachable(s, maxSize) && s.disk == DiskState([], [], map[]) && s.phase == Up(map[])
    ensures BaseOffset(s.disk) == 0 && BaseTable(s.disk) == map[] && s.clean && s.tail == Whole
  {
    var start := System(DiskState([], [], map[]), Down(map[]), true, Whole);
    assert After(start, [], maxSize) == start;
    assert Reachable(start, maxSize);
    ListingIs([], start.disk.files);
    assert Recover(start.disk) == Ok(map[]);
    ReachableNext(start, Open, maxSize);
    s := Next(start, Open, maxSize);
  }

  /** A crash right behind the header of the very first record: a clean state that no restart leaves. */
  lemma {:induction false} BareHeaderIsReachable(e: LogEntry, maxSize: int) returns (s: System)
    requires Fits(e) && |e.key| + |e.value| > 0
    ensures Reachable(s, maxSize) && s.clean && s.phase == Down(map[]) && s.tail == HeaderOnly
    ensures Recover(s.disk) == Err(TruncatedPayload)
  {
    var s0 := FirstStart(maxSize);
    ReachableNext(s0, CrashInAppend(e, HEADER_SIZE), maxSize);
    s := Next(s0, CrashInAppend(e, HEADER_SIZE), maxSize);
    RecoveryIsExact(s, maxSize);
  }

  /**
   * Rotation: two acknowledged writes with the log limit reached in between, then a crash. The
   * first write is only in the archive, which Open never reads.
   */
  lemma {:induction false} RotationLosesWrites(a: LogEntry, b: LogEntry, maxSize: int) returns (s: System)
    requires Fits(b) && a.key != b.key && 0 < maxSize <= RecordSize(a)
    ensures Reachable(s, maxSize) && s.phase.Down? && !s.clean
    ensures LiveTable(s) == map[a.key := ToEntry(a), b.key := ToEntry(b)]
    ensures Recover(s.disk) == Ok(map[b.key := ToEntry(b)])
  {
    var s0 := FirstStart(maxSize);
    ReachableNext(s0, Write(a, Appends), maxSize);
    var s1 := Next(s0, Write(a, Appends), maxSize);
    assert s1.disk.log == Encode(a);
    ReachableNext(s1, Write(b, Appends), maxSize);
    var s2 := Next(s1, Write(b, Appends), maxSize);
    assert s2.disk.log == Encode(b);
    ReachableNext(s2, Crash, maxSize);
    s := Next(s2, Crash, maxSize);
    EncodeOne(b);
    assert s.disk.log[0..] == Encode(b);
    RecoverWhole(s.disk, [b]);
    ReplayOne(map[], b);
  }

  /**
   * A torn byte: a crash after one byte of a record, a restart, an acknowledged write, a crash.
   * Everything is gone, for every record of ordinary size.
   */
  lemma {:induction false} TornByteLosesAll(x: LogEntry, e: LogEntry, maxSize: int) returns (s: System)
    requires Fits(x) && maxSize > 1 && |e.key| % 256 != 0 && RecordSize(e) < 0x100_0000
    ensures Reachable(s, maxSize) && s.phase.Down? && !s.clean
    ensures LiveTable(s) == map[e.key := ToEntry(e)] && Recover(s.disk) == Ok(map[])
  {
    var s0 := FirstStart(maxSize);
    ReachableNext(s0, CrashInAppend(x, 1), maxSize);
    var s1 := Next(s0, CrashInAppend(x, 1), maxSize);
    assert s1.disk.log == Encode(x)[..1];
    assert Recover(s1.disk) == Ok(map[]) by {
      assert Parse(s1.disk.log, 0) == Ok([]);
    }
    ReachableNext(s1, Open, maxSize);
    var s2 := Next(s1, Open, maxSize);
    ReachableNext(s2, Write(e, Appends), maxSize);
    var s3 := Next(s2, Write(e, Appends), maxSize);
    assert s3.disk.log == Encode(x)[..1] + Encode(e);
    ReachableNext(s3, Crash, maxSize);
    s := Next(s3, Crash, maxSize);
    assert s.disk.log[1..] == Encode(e) + [];
    TornByteHidesLog(s.disk.log, 0, Encode(x)[0], e, []);
  }

  /** The torn record `x` as the next bytes of the log complete it. */
  function Completed(x: LogEntry, cut: nat, more: Bytes): LogEntry
    requires HEADER_SIZE + |x.key| <= cut <= RecordSize(x) && RecordSize(x) - cut <= |more|
  {
    x.(value := x.value[..cut - HEADER_SIZE - |x.key|] + more[..RecordSize(x) - cut])
  }

  lemma {:induction false} CompletedBytes(x: LogEntry, cut: nat, more: Bytes)
    requires HEADER_SIZE + |x.key| <= cut <= RecordSize(x) && RecordSize(x) - cut <= |more|
    ensures Encode(Completed(x, cut, more)) == Encode(x)[..cut] + more[..RecordSize(x) - cut]
  {
    var c := cut - HEADER_SIZE - |x.key|;
    assert Header(Completed(x, cut, more)) == Header(x);
    assert Encode(x)[..cut] == Header(x) + x.key + x.value[..c];
  }

  lemma {:induction false} FirstBytes(log: Bytes, at: nat, head: Bytes, more: Bytes, n: nat)
    requires at <= |log| && log[at..] == head + more && n <= |more|
    ensures at + |head| + n <= |log| && log[at..at + |head| + n] == head + more[..n]
  {
    assert |log[at..]| == |log| - at;
    assert log[at..at + |head| + n] == log[at..][..|head| + n];
  }

  lemma {:induction false} OneRecord(log: Bytes, at: nat, e: LogEntry, end: nat)
    requires Fits(e) && at <= end <= |log| && log[at..end] == Encode(e)
    ensures Parse(log, at) == Prepend([e.(offset := at)], Parse(log, end))
  {
    EncodeOne(e);
    RecordsReadBack(log, at, [e], end);
    assert WithOffsets([e], at) == [e.(offset := at)];
  }

  /**
   * A record torn past its key is completed by whatever is appended behind it: replay returns the
   * torn record with a value nobody wrote, and goes on in the middle of the appended bytes.
   */
  lemma {:induction false} TornRecordIsCompleted(log: Bytes, at: nat, x: LogEntry, cut: nat, more: Bytes)
    requires Fits(x) && HEADER_SIZE + |x.key| <= cut < RecordSize(x) && RecordSize(x) - cut <= |more|
    requires at <= |log| && log[at..] == Encode(x)[..cut] + more
    ensures Parse(log, at)
         == Prepend([Completed(x, cut, more).(offset := at)], Parse(log, at + RecordSize(x)))
  {
    var y, end := Completed(x, cut, more), at + RecordSize(x);
    CompletedBytes(x, cut, more);
    FirstBytes(log, at, Encode(x)[..cut], more, RecordSize(x) - cut);
    OneRecord(log, at, y, end);
  }

  /**
   * A run in which Open invents a value: a crash past the key of a record, a restart, an acknowledged
   * write that fills up exactly what was missing, a crash. The write is gone, and the key of the torn
   * record has a value made of its first bytes and the bytes of the other record.
   */
  lemma {:induction false} TornTailForgesValue(x: LogEntry, cut: nat, e: LogEntry, maxSize: int) returns (s: System)
    requires Fits(x) && x.op == OP_PUT && cut < maxSize
    requires HEADER_SIZE < cut && HEADER_SIZE + |x.key| <= cut && RecordSize(x) - cut == RecordSize(e)
    ensures Reachable(s, maxSize) && s.phase.Down? && LiveTable(s) == map[e.key := ToEntry(e)]
    ensures var forged := x.value[..cut - HEADER_SIZE - |x.key|] + Encode(e);
            Recover(s.disk) == Ok(map[x.key := Entry(x.key, forged, x.timestamp, false)])
  {
    var s0 := FirstStart(maxSize);
    ReachableNext(s0, CrashInAppend(x, cut), maxSize);
    var s1 := Next(s0, CrashInAppend(x, cut), maxSize);
    assert s1.disk.log == Encode(x)[..cut];
    assert s1.disk.log[0..0] == EncodeAll([]) && s1.disk.log[0..] == Encode(x)[..cut];
    RecoverTorn(s1.disk, [], 0, x, cut);
    ReachableNext(s1, Open, maxSize);
    var s2 := Next(s1, Open, maxSize);
    ReachableNext(s2, Write(e, Appends), maxSize);
    var s3 := Next(s2, Write(e, Appends), maxSize);
    ReachableNext(s3, Crash, maxSize);
    s := Next(s3, Crash, maxSize);
    ForgedRecovery(s.disk, x, cut, e);
  }

  lemma {:induction false} ForgedRecovery(d: DiskState, x: LogEntry, cut: nat, e: LogEntry)
    requires Fits(x) && x.op == OP_PUT && HEADER_SIZE + |x.key| <= cut < RecordSize(x)
    requires RecordSize(x) - cut == RecordSize(e) && d.log == Encode(x)[..cut] + Encode(e)
    requires BaseOffset(d) == 0 && BaseTable(d) == map[]
    ensures var forged := x.value[..cut - HEADER_SIZE - |x.key|] + Encode(e);
            Recover(d) == Ok(map[x.key := Entry(x.key, forged, x.timestamp, false)])
  {
    var y := Completed(x, cut, Encode(e));
    CompletedBytes(x, cut, Encode(e));
    assert Encode(e)[..RecordSize(e)] == Encode(e);
    EncodeOne(y);
    assert d.log[0..] == EncodeAll([y]);
    RecoverWhole(d, [y]);
    ReplayOne(map[], y);
  }

  /** A write whose sync fails is reported as failed and is there after a restart. */
  lemma {:induction false} FailedSyncResurfaces(s: System, e: LogEntry, maxSize: int)
    requires Reachable(s, maxSize) && s.clean && s.phase.Up? && s.tail == Whole && !Rotates(s.disk, maxSize) && Fits(e)
    ensures var t := Next(s, Write(e, SyncFails), maxSize);
            Reachable(t, maxSize) && t.phase == s.phase && Recover(t.disk) == Ok(Applied(s.phase.mem, e))
  {
    ReachableNext(s, Write(e, SyncFails), maxSize);
    CrashInAppendIsAtomic(s, maxSize, e, RecordSize(e));
    assert Encode(e)[..RecordSize(e)] == Encode(e);
  }

  // ---- rotation, exactly ----

  /** The state after a series of acknowledged writes. */
  ghost function AfterWrites(s: System, es: seq<LogEntry>, maxSize: int): (t: System)
    requires s.phase.Up?
    ensures t.phase.Up?
  {
    if es == [] then s
    else AfterWrite(AfterWrites(s, es[..|es| - 1], maxSize), es[|es| - 1], maxSize)
  }

  /** Which of the writes was the last to rotate the log. */
  ghost function LastRotation(s: System, es: seq<LogEntry>, maxSize: int): (j: Option<nat>)
    requires s.phase.Up?
    ensures j.Some? ==> j.value < |es|
  {
    if es == [] then None
    else
      var n := |es| - 1;
      if Rotates(AfterWrites(s, es[..n], maxSize).disk, maxSize) then Some(n) else LastRotation(s, es[..n], maxSize)
  }

  lemma {:induction false} WritesAre(s: System, es: seq<LogEntry>, maxSize: int)
    requires Reachable(s, maxSize) && s.clean && s.phase.Up? && s.tail == Whole && AllFit(es)
    ensures var t := AfterWrites(s, es, maxSize);
            && Reachable(t, maxSize) && t.tail == Whole && t.disk.files == s.disk.files
            && LiveTable(t) == Replayed(LiveTable(s), es)
            && match LastRotation(s, es, maxSize)
               case None => t.clean
               case Some(j) => j < |es| && t.disk.log == EncodeAll(es[j..])
  {
    if es == [] {
    } else {
      var n := |es| - 1;
      var before, e := AfterWrites(s, es[..n], maxSize), es[n];
      WritesAre(s, es[..n], maxSize);
      ReachableNext(before, Write(e, Appends), maxSize);
      assert es == es[..n] + [e];
      ReplayedSnoc(LiveTable(s), es[..n], e);
      LogGrows(before, es, LastRotation(s, es[..n], maxSize), maxSize);
    }
  }

  /** The log after one more write: only that record if it rotates, otherwise one record more. */
  lemma {:induction false} LogGrows(before: System, es: seq<LogEntry>, last: Option<nat>, maxSize: int)
    requires es != [] && before.phase.Up?
    requires last.Some? ==> last.value < |es| - 1 && before.disk.log == EncodeAll(es[..|es| - 1][last.value..])
    ensures var log := AfterWrite(before, es[|es| - 1], maxSize).disk.log;
            if Rotates(before.disk, maxSize) then log == EncodeAll(es[|es| - 1..])
            else last.Some? ==> log == EncodeAll(es[last.value..])
  {
    var n := |es| - 1;
    EncodeOne(es[n]);
    assert es[n..] == [es[n]];
    if !Rotates(before.disk, maxSize) {
      RotatedSame(before.disk, maxSize);
      if last.Some? {
        EncodeAllConcat(es[..n][last.value..], [es[n]]);
        assert es[last.value..] == es[..n][last.value..] + [es[n]];
      }
    }
  }

  /** The records behind the offset of the latest snapshot. */
  ghost function Behind(d: DiskState): seq<LogEntry> {
    match Parse(d.log, BaseOffset(d))
    case Ok(es) => es
    case Err(_) => []
  }

  /**
   * In the log that holds only `current`, replay from the old offset `at` starts behind the first
   * `skip` records, or past the end.
   */
  predicate StartsBehind(at: nat, current: seq<LogEntry>, skip: nat) {
    skip <= |current|
    && (at == |EncodeAll(current[..skip])| || (skip == |current| && at >= |EncodeAll(current)|))
  }

  /** The live table is the snapshot with the records behind it. */
  lemma {:induction false} LiveIsBehind(s: System, maxSize: int)
    requires Reachable(s, maxSize) && s.clean && s.tail == Whole
    ensures LiveTable(s) == Replayed(BaseTable(s.disk), Behind(s.disk))
  {
    RecoveryIsExact(s, maxSize);
  }

  /** Any series of writes from any clean state that does not rotate the log is recovered. */
  lemma {:induction false} UnrotatedRecovers(s: System, es: seq<LogEntry>, maxSize: int)
    requires Reachable(s, maxSize) && s.clean && s.phase.Up? && s.tail == Whole && AllFit(es)
    requires LastRotation(s, es, maxSize) == None
    ensures var t := AfterWrites(s, es, maxSize); Recover(t.disk) == Ok(LiveTable(t))
  {
    WritesAre(s, es, maxSize);
    RecoveryIsExact(AfterWrites(s, es, maxSize), maxSize);
  }

  /**
   * Any series of writes from any clean state, the last rotation being at the j-th of them. The
   * snapshot's offset is now applied to the new log. If it falls on a record boundary there or past
   * its end, recovery is exact if and only if every key that was last written in a record no longer
   * read already had that slot in the snapshot.
   */
  lemma {:induction false} RotationRecoversIff(s: System, es: seq<LogEntry>, maxSize: int, j: nat, skip: nat)
    requires Reachable(s, maxSize) && s.clean && s.phase.Up? && s.tail == Whole && AllFit(es)
    requires LastRotation(s, es, maxSize) == Some(j) && StartsBehind(BaseOffset(s.disk), es[j..], skip)
    ensures var t := AfterWrites(s, es, maxSize);
            var lost, read := Behind(s.disk) + es[..j + skip], es[j + skip..];
            Recover(t.disk) == Ok(LiveTable(t)) <==>
              forall k :: LastInGap(lost, read, k) ==> LastWrite(lost, k) == Find(BaseTable(s.disk), k)
  {
    WritesAre(s, es, maxSize);
    LiveIsBehind(s, maxSize);
    GapAfterRotation(AfterWrites(s, es, maxSize).disk, Behind(s.disk), es, j, skip);
  }

  lemma {:induction false} GapAfterRotation(d: DiskState, behind: seq<LogEntry>, es: seq<LogEntry>, j: nat, skip: nat)
    requires AllFit(es) && j <= |es| && d.log == EncodeAll(es[j..]) && StartsBehind(BaseOffset(d), es[j..], skip)
    ensures var lost, read := behind + es[..j + skip], es[j + skip..];
            Recover(d) == Ok(Replayed(Replayed(BaseTable(d), behind), es)) <==>
              forall k :: LastInGap(lost, read, k) ==> LastWrite(lost, k) == Find(BaseTable(d), k)
  {
    var base, lost, read := BaseTable(d), behind + es[..j + skip], es[j + skip..];
    SplitBehind(behind, es, j, skip);
    RotatedRecovers(d, es[j..], skip);
    ReplayedConcat(base, behind, es);
    GapOnBase(base, lost, read);
  }

  lemma {:induction false} SplitBehind(behind: seq<LogEntry>, es: seq<LogEntry>, j: nat, skip: nat)
    requires j + skip <= |es|
    ensures es[j..][skip..] == es[j + skip..]
    ensures behind + es == behind + es[..j + skip] + es[j + skip..]
  {
  }

  lemma {:induction false} GapOnBase(m: Table, gap: seq<LogEntry>, after: seq<LogEntry>)
    ensures Replayed(m, after) == Replayed(m, gap + after)
       <==> forall k :: LastInGap(gap, after, k) ==> LastWrite(gap, k) == Find(m, k)
  {
    var none: seq<LogEntry> := [];
    GapRebuildsIff(m, none, gap, after);
    assert none + gap + after == gap + after;
  }

  lemma {:induction false} RotatedRecovers(d: DiskState, current: seq<LogEntry>, skip: nat)
    requires AllFit(current) && d.log == EncodeAll(current) && StartsBehind(BaseOffset(d), current, skip)
    ensures Recover(d) == Ok(Replayed(BaseTable(d), current[skip..]))
  {
    if BaseOffset(d) >= |d.log| && skip == |current| {
      OffsetPastEndRecovers(d);
    } else {
      assert current == current[..skip] + current[skip..];
      EncodeAllConcat(current[..skip], current[skip..]);
      RecoverWhole(d, current[skip..]);
    }
  }
}
