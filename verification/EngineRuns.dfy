/**
 * Runs of the storage engine: writes, snapshots, crashes at any byte, and restarts, in any order.
 * Recovery is shown to rebuild the live table over every such run.
 */
module EngineRuns {
  import opened Common
  import opened StorageTypes
  import opened LogFormat
  import opened Wal
  import opened Memtables
  import opened Snapshots
  import opened Recovery

  /** A running engine has a memtable; a stopped one has the table it ought to come back with. */
  datatype Phase = Up(mem: Table) | Down(live: Table)

  /** The end of the log file: whole records, a partly written record, or a bare header with its payload missing. */
  datatype Tail = Whole | Torn | HeaderOnly

  /**
   * `clean` says that since the snapshot that would be read was taken the log has not been rotated,
   * nothing has been appended behind a torn record, no record had a key or value of 2^32 bytes or
   * more, and no sync has failed.
   */
  datatype System = System(disk: DiskState, phase: Phase, clean: bool, tail: Tail)

  datatype Step =
    | Write(e: LogEntry, fault: AppendFault)
    | TakeSnapshot(now: Int64, entries: seq<Entry>, saving: SnapshotFault, stuck: set<string>)
    | Crash
    | CrashInAppend(e: LogEntry, cut: nat)
    | CrashInSnapshot(now: Int64, partial: SnapshotData)
    | Open

  /** An empty data directory, before the first start. */
  predicate IsInitial(s: System) {
    s.disk == DiskState([], [], map[]) && s.phase == Down(map[]) && s.clean && s.tail == Whole
  }

  /** The append archives a non-empty log first. */
  predicate Rotates(d: DiskState, maxSize: int) {
    |d.log| >= maxSize && d.log != []
  }

  ghost predicate Enabled(s: System, step: Step) {
    match step
    case Write(_, _) => s.phase.Up?
    case TakeSnapshot(now, entries, _, _) =>
      && s.phase.Up? && now >= 0
      && KeySorted(entries) && BareTombstones(entries) && Contents(entries) == s.phase.mem
    case Crash => s.phase.Up?
    case CrashInAppend(e, cut) => s.phase.Up? && cut <= RecordSize(e)
    case CrashInSnapshot(now, _) => s.phase.Up? && now >= 0
    case Open => s.phase.Down?
  }

  ghost function AfterWrite(s: System, e: LogEntry, maxSize: int): System
    requires s.phase.Up?
  {
    var clean := s.clean && !Rotates(s.disk, maxSize) && s.tail == Whole && Fits(e);
    System(Appended(s.disk, maxSize, e), Up(Applied(s.phase.mem, e)), clean, Whole)
  }

  /** A failed append leaves the table; an unsynced record stays in the log nevertheless. */
  ghost function AfterFailedWrite(s: System, e: LogEntry, fault: AppendFault, maxSize: int): System
    requires s.phase.Up? && fault != Appends
  {
    var disk := AppendOutcome(s.disk, maxSize, e, fault);
    if fault == WriteFails then s.(disk := disk, clean := s.clean && !Rotates(s.disk, maxSize))
    else System(disk, s.phase, false, Whole)
  }

  /** A snapshot is read from now on only if it was saved and no file on disk is newer. */
  ghost function AfterSnapshot(s: System, data: SnapshotData, saving: SnapshotFault, stuck: set<string>): System
    requires data.createdAt >= 0
  {
    var disk := s.disk.(files := WriteOutcome(s.disk.files, data, saving, stuck));
    if saving == Saves && !HasNewer(s.disk.files, data.createdAt) then System(disk, s.phase, true, Whole)
    else s.(disk := disk)
  }

  ghost function AfterCrashInAppend(s: System, e: LogEntry, cut: nat, maxSize: int): System
    requires s.phase.Up? && cut <= RecordSize(e)
  {
    var disk := PartlyAppended(s.disk, maxSize, e, cut);
    if cut == 0 then System(disk, Down(s.phase.mem), s.clean && !Rotates(s.disk, maxSize), s.tail)
    else
      var clean := s.clean && !Rotates(s.disk, maxSize) && s.tail == Whole && Fits(e);
      if cut == RecordSize(e) then System(disk, Down(Applied(s.phase.mem, e)), clean, Whole)
      else System(disk, Down(s.phase.mem), clean, if HeaderOnlyCut(e, cut) then HeaderOnly else Torn)
  }

  ghost function Next(s: System, step: Step, maxSize: int): System
    requires Enabled(s, step)
  {
    match step
    case Write(e, fault) =>
      if fault == Appends then AfterWrite(s, e, maxSize) else AfterFailedWrite(s, e, fault, maxSize)
    case TakeSnapshot(now, entries, saving, stuck) =>
      AfterSnapshot(s, SnapshotData(now, |s.disk.log|, entries), saving, stuck)
    case Crash => s.(phase := Down(s.phase.mem))
    case CrashInAppend(e, cut) => AfterCrashInAppend(s, e, cut, maxSize)
    case CrashInSnapshot(now, partial) =>
      var files := s.disk.files[SnapshotName(now) + TMP := partial];
      s.(disk := s.disk.(files := files), phase := Down(s.phase.mem))
    case Open =>
      match Recover(s.disk)
      case Ok(m) => s.(phase := Up(m))
      case Err(_) => s
  }

  ghost predicate IsRun(s: System, steps: seq<Step>, maxSize: int)
    decreases steps
  {
    steps == [] || (Enabled(s, steps[0]) && IsRun(Next(s, steps[0], maxSize), steps[1..], maxSize))
  }

  ghost function After(s: System, steps: seq<Step>, maxSize: int): System
    requires IsRun(s, steps, maxSize)
    decreases steps
  {
    if steps == [] then s else After(Next(s, steps[0], maxSize), steps[1..], maxSize)
  }

  ghost predicate Reachable(s: System, maxSize: int) {
    exists start: System, steps: seq<Step> ::
      IsInitial(start) && IsRun(start, steps, maxSize) && After(start, steps, maxSize) == s
  }

  // ---- the invariant ----

  function LiveTable(s: System): Table {
    match s.phase
    case Up(m) => m
    case Down(m) => m
  }

  /** The tail of the log is what its classification says, `cut` bytes of the record of `e`. */
  predicate TailIs(tail: Tail, rest: Bytes, e: LogEntry, cut: nat) {
    match tail
    case Whole => rest == []
    case Torn => Fits(e) && 0 < cut < RecordSize(e) && rest == Encode(e)[..cut] && !HeaderOnlyCut(e, cut)
    case HeaderOnly => Fits(e) && cut < RecordSize(e) && rest == Encode(e)[..cut] && HeaderOnlyCut(e, cut)
  }

  /** The records behind the snapshot offset, where they end, and the record a torn tail belongs to. */
  datatype Reading = Reading(es: seq<LogEntry>, end: nat, last: LogEntry, cut: nat)

  /** The latest snapshot and the whole records behind its offset add up to the live table. */
  ghost predicate AddsUp(d: DiskState, live: Table, tail: Tail, r: Reading) {
    && AllFit(r.es) && BaseOffset(d) <= r.end <= |d.log| && d.log[BaseOffset(d)..r.end] == EncodeAll(r.es)
    && live == Replayed(BaseTable(d), r.es)
    && TailIs(tail, d.log[r.end..], r.last, r.cut)
  }

  ghost predicate Sound(s: System) {
    exists r: Reading :: AddsUp(s.disk, LiveTable(s), s.tail, r)
  }

  ghost predicate Inv(s: System) {
    && WellNamed(s.disk.files)
    && (s.clean ==> Sound(s) && (s.phase.Up? ==> s.tail != HeaderOnly))
  }

  lemma {:induction false} WholeEnds(log: Bytes, r: Reading)
    requires r.end <= |log| && TailIs(Whole, log[r.end..], r.last, r.cut)
    ensures r.end == |log| && forall at :: 0 <= at <= |log| ==> log[at..r.end] == log[at..]
  {
    assert |log[r.end..]| == |log| - r.end;
  }

  /** In a sound state recovery yields the live table, or fails if only a header is left of the last record. */
  lemma {:induction false} SoundRecovers(s: System)
    requires Sound(s)
    ensures Recover(s.disk) == if s.tail == HeaderOnly then Err(TruncatedPayload) else Ok(LiveTable(s))
  {
    var r: Reading :| AddsUp(s.disk, LiveTable(s), s.tail, r);
    if s.tail == Whole {
      WholeEnds(s.disk.log, r);
      RecoverWhole(s.disk, r.es);
    } else {
      RecoverTorn(s.disk, r.es, r.end, r.last, r.cut);
    }
  }

  lemma {:induction false} EncodeOne(e: LogEntry)
    ensures EncodeAll([e]) == Encode(e)
  {
    assert [e][1..] == [];
    assert Encode(e) + [] == Encode(e);
  }

  /** Bytes appended behind whole records leave those records in place. */
  lemma {:induction false} AppendBehind(log: Bytes, at: nat, es: seq<LogEntry>, more: Bytes)
    requires at <= |log| && log[at..] == EncodeAll(es)
    ensures (log + more)[at..|log|] == EncodeAll(es) && (log + more)[|log|..] == more
    ensures (log + more)[at..] == EncodeAll(es) + more
  {
  }

  lemma {:induction false} ReplayOne(m: Table, e: LogEntry)
    ensures Replayed(m, [e]) == Applied(m, e)
  {
    assert [e][1..] == [];
  }

  lemma {:induction false} RotatedSame(d: DiskState, maxSize: int)
    requires !Rotates(d, maxSize)
    ensures Rotated(d, maxSize).log == d.log && Rotated(d, maxSize).files == d.files
  {
  }

  lemma {:induction false} RecordsGrow(log: Bytes, at: nat, es: seq<LogEntry>, e: LogEntry)
    requires at <= |log| && log[at..] == EncodeAll(es)
    ensures (log + Encode(e))[at..] == EncodeAll(es + [e])
  {
    AppendBehind(log, at, es, Encode(e));
    EncodeOne(e);
    EncodeAllConcat(es, [e]);
  }

  lemma {:induction false} ReplayedSnoc(m: Table, es: seq<LogEntry>, e: LogEntry)
    ensures Replayed(m, es + [e]) == Applied(Replayed(m, es), e)
  {
    ReplayedConcat(m, es, [e]);
    ReplayOne(Replayed(m, es), e);
  }

  lemma {:induction false} AddsUpGrows(d: DiskState, t: DiskState, live: Table, r: Reading, e: LogEntry)
    requires AddsUp(d, live, Whole, r) && Fits(e) && t.files == d.files && t.log == d.log + Encode(e)
    ensures AddsUp(t, Applied(live, e), Whole, Reading(r.es + [e], |t.log|, e, 0))
  {
    WholeEnds(d.log, r);
    RecordsGrow(d.log, BaseOffset(d), r.es, e);
    ReplayedSnoc(BaseTable(d), r.es, e);
    assert t.log[BaseOffset(d)..|t.log|] == t.log[BaseOffset(d)..];
  }

  lemma {:induction false} WriteStaysSound(s: System, e: LogEntry, maxSize: int)
    requires s.phase.Up? && s.clean && Sound(s) && AfterWrite(s, e, maxSize).clean
    ensures Sound(AfterWrite(s, e, maxSize))
  {
    var r: Reading :| AddsUp(s.disk, LiveTable(s), s.tail, r);
    var t := AfterWrite(s, e, maxSize);
    RotatedSame(s.disk, maxSize);
    AddsUpGrows(s.disk, t.disk, LiveTable(s), r, e);
    assert AddsUp(t.disk, LiveTable(t), t.tail, Reading(r.es + [e], |t.disk.log|, e, 0));
  }

  lemma {:induction false} TornWriteStaysSound(s: System, e: LogEntry, cut: nat, maxSize: int)
    requires s.phase.Up? && s.clean && Sound(s) && 0 < cut < RecordSize(e)
    requires AfterCrashInAppend(s, e, cut, maxSize).clean
    ensures Sound(AfterCrashInAppend(s, e, cut, maxSize))
  {
    var r: Reading :| AddsUp(s.disk, LiveTable(s), s.tail, r);
    var d, t := s.disk, AfterCrashInAppend(s, e, cut, maxSize);
    RotatedSame(d, maxSize);
    WholeEnds(d.log, r);
    AppendBehind(d.log, BaseOffset(d), r.es, Encode(e)[..cut]);
    assert AddsUp(t.disk, LiveTable(t), t.tail, Reading(r.es, |d.log|, e, cut));
  }

  /** Soundness only looks at the log, the latest snapshot, the live table and the tail. */
  lemma {:induction false} SoundFrame(s: System, t: System)
    requires Sound(s) && s.disk.log == t.disk.log && Latest(s.disk.files) == Latest(t.disk.files)
    requires LiveTable(s) == LiveTable(t) && s.tail == t.tail
    ensures Sound(t)
  {
    var r: Reading :| AddsUp(s.disk, LiveTable(s), s.tail, r);
    assert AddsUp(t.disk, LiveTable(t), t.tail, r);
  }

  lemma {:induction false} CrashInAppendKeepsInv(s: System, e: LogEntry, cut: nat, maxSize: int)
    requires Inv(s) && s.phase.Up? && cut <= RecordSize(e)
    ensures Inv(AfterCrashInAppend(s, e, cut, maxSize))
  {
    var t := AfterCrashInAppend(s, e, cut, maxSize);
    if t.clean {
      if cut == 0 {
        assert s.disk.log + Encode(e)[..0] == s.disk.log;
        SoundFrame(s, t);
      } else if cut == RecordSize(e) {
        assert Encode(e)[..cut] == Encode(e);
        WriteStaysSound(s, e, maxSize);
        SoundFrame(AfterWrite(s, e, maxSize), t);
      } else {
        TornWriteStaysSound(s, e, cut, maxSize);
      }
    }
  }

  lemma {:induction false} NothingToReplay(t: System)
    requires BaseOffset(t.disk) == |t.disk.log| && LiveTable(t) == BaseTable(t.disk) && t.tail == Whole
    ensures Sound(t)
  {
    var any: LogEntry :| true;
    assert AddsUp(t.disk, LiveTable(t), t.tail, Reading([], |t.disk.log|, any, 0));
  }

  lemma {:induction false} SnapshotKeepsInv(s: System, step: Step, maxSize: int)
    requires Inv(s) && step.TakeSnapshot? && Enabled(s, step)
    ensures Inv(Next(s, step, maxSize))
  {
    var t := Next(s, step, maxSize);
    var data := SnapshotData(step.now, |s.disk.log|, step.entries);
    if step.saving == Saves {
      WriteBecomesLatestIff(s.disk.files, data, step.stuck);
    } else {
      FailedWriteIsInvisible(s.disk.files, data, step.saving, step.stuck);
    }
    if step.saving == Saves && !HasNewer(s.disk.files, step.now) {
      SnapshotRestores(step.entries);
      NothingToReplay(t);
    } else if s.clean {
      SoundFrame(s, t);
    }
  }

  lemma {:induction false} FailedWriteKeepsInv(s: System, e: LogEntry, fault: AppendFault, maxSize: int)
    requires Inv(s) && s.phase.Up? && fault != Appends
    ensures Inv(AfterFailedWrite(s, e, fault, maxSize))
  {
    var t := AfterFailedWrite(s, e, fault, maxSize);
    if t.clean {
      RotatedSame(s.disk, maxSize);
      SoundFrame(s, t);
    }
  }

  /** Every step keeps the invariant. */
  lemma {:induction false} StepKeepsInv(s: System, step: Step, maxSize: int)
    requires Inv(s) && Enabled(s, step)
    ensures Inv(Next(s, step, maxSize))
  {
    var t := Next(s, step, maxSize);
    match step
    case Write(e, fault) =>
      if fault != Appends {
        FailedWriteKeepsInv(s, e, fault, maxSize);
      } else if t.clean {
        WriteStaysSound(s, e, maxSize);
      }
    case TakeSnapshot(_, _, _, _) =>
      SnapshotKeepsInv(s, step, maxSize);
    case Crash =>
      if t.clean {
        SoundFrame(s, t);
      }
    case CrashInAppend(e, cut) =>
      CrashInAppendKeepsInv(s, e, cut, maxSize);
    case CrashInSnapshot(now, partial) =>
      TemporaryFileIsInvisible(s.disk.files, SnapshotName(now), partial);
      if t.clean {
        SoundFrame(s, t);
      }
    case Open =>
      if t.clean {
        SoundRecovers(s);
        SoundFrame(s, t);
      }
  }

  lemma {:induction false} InitialInv(s: System)
    requires IsInitial(s)
    ensures Inv(s)
  {
    ListingIs([], s.disk.files);
    NothingToReplay(s);
  }

  lemma {:induction false} RunKeepsInv(s: System, steps: seq<Step>, maxSize: int)
    requires Inv(s) && IsRun(s, steps, maxSize)
    ensures Inv(After(s, steps, maxSize))
    decreases steps
  {
    if steps == [] {
    } else {
      StepKeepsInv(s, steps[0], maxSize);
      RunKeepsInv(Next(s, steps[0], maxSize), steps[1..], maxSize);
    }
  }

  lemma {:induction false} ReachableInv(s: System, maxSize: int)
    requires Reachable(s, maxSize)
    ensures Inv(s)
  {
    var start: System, steps: seq<Step> :|
      IsInitial(start) && IsRun(start, steps, maxSize) && After(start, steps, maxSize) == s;
    InitialInv(start);
    RunKeepsInv(start, steps, maxSize);
  }

  // ---- the main results ----

  /**
   * Over every run from an empty disk: whenever the state is clean, opening the disk rebuilds the
   * live table exactly, values, timestamps and tombstones; it fails exactly when the last crash left
   * a bare header behind.
   */
  lemma {:induction false} RecoveryIsExact(s: System, maxSize: int)
    requires Reachable(s, maxSize) && s.clean
    ensures Recover(s.disk) == if s.tail == HeaderOnly then Err(TruncatedPayload) else Ok(LiveTable(s))
  {
    ReachableInv(s, maxSize);
    SoundRecovers(s);
  }

  /**
   * A crash after `cut` bytes of an append, in any clean reachable state with a whole log: the
   * restart sees the state just before the operation, just after it, or fails at the bare header.
   */
  lemma {:induction false} CrashInAppendIsAtomic(s: System, maxSize: int, e: LogEntry, cut: nat)
    requires Reachable(s, maxSize) && s.clean && s.phase.Up? && s.tail == Whole && !Rotates(s.disk, maxSize)
    requires Fits(e) && cut <= RecordSize(e)
    ensures var restart := Recover(PartlyAppended(s.disk, maxSize, e, cut));
            && (cut == RecordSize(e) ==> restart == Ok(Applied(s.phase.mem, e)))
            && (cut < RecordSize(e) && HeaderOnlyCut(e, cut) ==> restart == Err(TruncatedPayload))
            && (cut < RecordSize(e) && !HeaderOnlyCut(e, cut) ==> restart == Ok(s.phase.mem))
  {
    ReachableInv(s, maxSize);
    CrashInAppendKeepsInv(s, e, cut, maxSize);
    SoundRecovers(AfterCrashInAppend(s, e, cut, maxSize));
  }

  /**
   * Whatever happened before: a snapshot that is saved while no file is newer makes the live table
   * recoverable again; any other changes nothing about what a restart yields.
   */
  lemma {:induction false} SnapshotHeals(s: System, maxSize: int, step: Step)
    requires Reachable(s, maxSize) && step.TakeSnapshot? && Enabled(s, step)
    ensures var t, heals := Next(s, step, maxSize), step.saving == Saves && !HasNewer(s.disk.files, step.now);
            && (heals ==> t.clean) && Recover(t.disk) == if heals then Ok(s.phase.mem) else Recover(s.disk)
  {
    ReachableInv(s, maxSize);
    SnapshotOutcomeRecovers(s.disk, SnapshotData(step.now, |s.disk.log|, step.entries), step.saving, step.stuck);
  }

  /** Once a crash has left a bare header, no sequence of restarts ever brings the engine back. */
  lemma {:induction false} BareHeaderIsFatal(s: System, steps: seq<Step>, maxSize: int)
    requires Reachable(s, maxSize) && s.clean && s.phase.Down? && s.tail == HeaderOnly && IsRun(s, steps, maxSize)
    ensures After(s, steps, maxSize) == s
    decreases steps
  {
    if steps == [] {
    } else {
      RecoveryIsExact(s, maxSize);
      BareHeaderIsFatal(s, steps[1..], maxSize);
    }
  }
}
