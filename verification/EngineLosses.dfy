/**
 * What exactly is lost once a run leaves the clean states: the converse of the recovery theorem for
 * records behind a torn one, for lengths that do not fit, and for failed syncs.
 */
module EngineLosses {
  import opened Common
  import opened StorageTypes
  import opened LogFormat
  import opened Wal
  import opened Recovery
  import opened EngineRuns
  import opened EngineGaps

  // ---- where replayed records stand ----

  /** A record read back stands where its offset says, and lies inside the log. */
  lemma {:induction false} ParsedStands(log: Bytes, at: nat, es: seq<LogEntry>, j: nat)
    requires Parse(log, at) == Ok(es) && j < |es|
    ensures at + HEADER_SIZE <= |log| && es[j].offset + RecordSize(es[j]) <= |log|
    ensures if j == 0 then es[j] == EntryAt(log, at) else es[j].offset >= RecordEnd(log, at)
    decreases |log| - at
  {
    var next := RecordEnd(log, at);
    match Parse(log, next)
    case Ok(more) =>
      assert es == [EntryAt(log, at)] + more;
      if j == 0 {
      } else {
        ParsedStands(log, next, more, j - 1);
        assert es[j] == more[j - 1];
        assert j > 1 ==> RecordEnd(log, next) >= next;
      }
  }

  /** A record that leaves the slot of `e` is at least as long as that of `e`. */
  lemma {:induction false} SlotNeedsRoom(x: LogEntry, e: LogEntry)
    requires ToEntry(x) == ToEntry(e) && (e.op == OP_DELETE ==> e.value == [])
    ensures RecordSize(x) >= RecordSize(e)
  {
    assert x.key == ToEntry(x).key == ToEntry(e).key == e.key;
  }

  /** If the first record read is not `e`, and the others have less room than `e` needs, none of them is `e`. */
  lemma {:induction false} NotReadBack(log: Bytes, at: nat, es: seq<LogEntry>, e: LogEntry)
    requires Parse(log, at) == Ok(es) && (e.op == OP_DELETE ==> e.value == [])
    requires es != [] ==> ToEntry(es[0]) != ToEntry(e)
    requires at + HEADER_SIZE <= |log| ==> RecordEnd(log, at) + RecordSize(e) > |log|
    ensures LastWrite(es, e.key) != Some(ToEntry(e))
  {
    if LastWrite(es, e.key) == Some(ToEntry(e)) {
      var j := LastWriteFrom(es, e.key, ToEntry(e));
      ParsedStands(log, at, es, j);
      SlotNeedsRoom(es[j], e);
      assert false;
    }
  }

  lemma {:induction false} LastWriteFrom(es: seq<LogEntry>, key: Key, slot: Entry) returns (j: nat)
    requires LastWrite(es, key) == Some(slot)
    ensures j < |es| && ToEntry(es[j]) == slot
  {
    if es[|es| - 1].key == key {
      j := |es| - 1;
    } else {
      j := LastWriteFrom(es[..|es| - 1], key, slot);
    }
  }

  /**
   * Whole records up to `end`, then bytes in which `e` cannot be read back: recovery does not yield
   * the table with `e` applied, unless `e` changes nothing.
   */
  lemma {:induction false} NotRecovered(d: DiskState, mem: Table, behind: seq<LogEntry>, end: nat, e: LogEntry)
    requires AllFit(behind) && BaseOffset(d) <= end <= |d.log| && d.log[BaseOffset(d)..end] == EncodeAll(behind)
    requires mem == Replayed(BaseTable(d), behind) && Find(mem, e.key) != Some(ToEntry(e))
    requires Parse(d.log, end).Ok? ==> LastWrite(Parse(d.log, end).value, e.key) != Some(ToEntry(e))
    ensures Recover(d) != Ok(Applied(mem, e))
  {
    var at := BaseOffset(d);
    RecordsReadBack(d.log, at, behind, end);
    if Parse(d.log, end).Ok? {
      var es := Parse(d.log, end).value;
      ReplayedConcat(BaseTable(d), WithOffsets(behind, at), es);
      OffsetsDoNotMatter(BaseTable(d), behind, at);
      assert Recover(d) == Ok(Replayed(mem, es));
      LastWriteDecides(mem, es, e.key);
      assert Find(Applied(mem, e), e.key) == Some(ToEntry(e));
    }
  }

  // ---- a write behind a torn record ----

  /** A header at `at` whose first eight bytes are the timestamp `t`. */
  predicate Stamped(log: Bytes, at: nat, t: Int64) {
    at + HEADER_SIZE <= |log| && TimestampAt(log, at) == t
  }

  /** `cut` bytes of a record followed by another record: what replay reads first ends behind the cut. */
  lemma {:induction false} FirstEndsBehindCut(log: Bytes, end: nat, x: LogEntry, cut: nat)
    requires Fits(x) && cut < RecordSize(x) && end + cut <= |log| && end + HEADER_SIZE <= |log|
    requires log[end..end + cut] == Encode(x)[..cut]
    ensures RecordEnd(log, end) > end + cut
  {
    if cut >= HEADER_SIZE {
      assert log[end..end + HEADER_SIZE] == log[end..end + cut][..HEADER_SIZE] == Header(x);
      HeaderReadsBack(log, end, x);
    }
  }

  /** If at least eight bytes of the torn record were written, the timestamp read there is its own. */
  lemma {:induction false} TornRecordKeepsStamp(log: Bytes, end: nat, x: LogEntry, cut: nat)
    requires 8 <= cut <= RecordSize(x) && end + cut <= |log| && end + HEADER_SIZE <= |log|
    requires log[end..end + cut] == Encode(x)[..cut]
    ensures TimestampAt(log, end) == x.timestamp
  {
    HeaderFields(x);
    assert log[end..end + 8] == log[end..end + cut][..8] == Encode(x)[..8] == Header(x)[..8];
    assert Header(x)[..8] == Header(x)[0..8];
    Pow256Values();
    NumberReadsBack(log, end, Unsigned64(x.timestamp), 8);
  }

  lemma {:induction false} TornAppendNotRead(log: Bytes, end: nat, x: LogEntry, cut: nat, e: LogEntry)
    requires Fits(x) && 0 < cut < RecordSize(x) && (e.op == OP_DELETE ==> e.value == [])
    requires end <= |log| && log[end..] == Encode(x)[..cut] + Encode(e) && !Stamped(log, end, e.timestamp)
    ensures Parse(log, end).Ok? ==> LastWrite(Parse(log, end).value, e.key) != Some(ToEntry(e))
  {
    assert |log| == end + cut + RecordSize(e) by {
      assert |log[end..]| == |log| - end;
    }
    assert log[end..end + cut] == log[end..][..cut] == Encode(x)[..cut];
    FirstEndsBehindCut(log, end, x, cut);
    if Parse(log, end).Ok? {
      var es := Parse(log, end).value;
      if es != [] {
        ParsedStands(log, end, es, 0);
        assert ToEntry(es[0]).timestamp == TimestampAt(log, end);
      }
      NotReadBack(log, end, es, e);
    }
  }

  /** Where the torn record begins: behind the whole records that replay returns. */
  ghost function TornAt(d: DiskState): nat {
    BaseOffset(d) + |EncodeAll(Behind(d))|
  }

  lemma {:induction false} OffsetsKeepBytes(es: seq<LogEntry>, at: nat)
    ensures EncodeAll(WithOffsets(es, at)) == EncodeAll(es)
    decreases es
  {
    if es == [] {
    } else {
      var all := WithOffsets(es, at);
      assert all[1..] == WithOffsets(es[1..], at + RecordSize(es[0]));
      OffsetsKeepBytes(es[1..], at + RecordSize(es[0]));
      assert Encode(all[0]) == Encode(es[0]);
    }
  }

  /** In a sound state with a torn record, that record begins where the whole ones end. */
  lemma {:induction false} TornBegins(s: System) returns (r: Reading)
    requires Sound(s) && s.tail == Torn
    ensures AddsUp(s.disk, LiveTable(s), Torn, r) && r.end == TornAt(s.disk)
  {
    r :| AddsUp(s.disk, LiveTable(s), s.tail, r);
    var d := s.disk;
    TornTailReplay(d.log, BaseOffset(d), r.es, r.end, r.last, r.cut);
    OffsetsKeepBytes(r.es, BaseOffset(d));
    assert |d.log[BaseOffset(d)..r.end]| == r.end - BaseOffset(d);
  }

  /**
   * A write acknowledged behind a torn record is lost: from every clean reachable state, for every cut
   * and every size, if it changes its key's slot and its timestamp is not the one read at the torn
   * record. That is the torn record's own if eight bytes of it were written.
   */
  lemma {:induction false} TornTailLosesWrite(s: System, e: LogEntry, maxSize: int)
    requires Reachable(s, maxSize) && s.clean && s.phase.Up? && s.tail == Torn && !Rotates(s.disk, maxSize)
    requires !Stamped(s.disk.log + Encode(e), TornAt(s.disk), e.timestamp)
    requires (e.op == OP_DELETE ==> e.value == []) && Find(s.phase.mem, e.key) != Some(ToEntry(e))
    ensures var t := Next(s, Write(e, Appends), maxSize);
            Reachable(t, maxSize) && LiveTable(t) == Applied(s.phase.mem, e) && Recover(t.disk) != Ok(LiveTable(t))
  {
    ReachableInv(s, maxSize);
    ReachableNext(s, Write(e, Appends), maxSize);
    var r := TornBegins(s);
    RotatedSame(s.disk, maxSize);
    TornAppendLost(s.disk, Next(s, Write(e, Appends), maxSize).disk, s.phase.mem, r, e);
  }

  lemma {:induction false} TornAppendLost(d: DiskState, t: DiskState, mem: Table, r: Reading, e: LogEntry)
    requires AddsUp(d, mem, Torn, r) && t.files == d.files && t.log == d.log + Encode(e)
    requires !Stamped(t.log, r.end, e.timestamp) && (e.op == OP_DELETE ==> e.value == [])
    requires Find(mem, e.key) != Some(ToEntry(e))
    ensures Recover(t) != Ok(Applied(mem, e))
  {
    assert t.log[BaseOffset(d)..r.end] == d.log[BaseOffset(d)..r.end];
    assert |d.log[r.end..]| == r.cut;
    assert t.log[r.end..] == Encode(r.last)[..r.cut] + Encode(e);
    TornAppendNotRead(t.log, r.end, r.last, r.cut, e);
    NotRecovered(t, mem, r.es, r.end, e);
  }

  // ---- a record that does not fit ----

  /** A record whose lengths do not fit is not read back. */
  lemma {:induction false} OversizedNotRead(log: Bytes, end: nat, e: LogEntry)
    requires !Fits(e) && (e.op == OP_DELETE ==> e.value == []) && end <= |log| && log[end..] == Encode(e)
    ensures Parse(log, end).Ok? ==> LastWrite(Parse(log, end).value, e.key) != Some(ToEntry(e))
  {
    assert |log| == end + RecordSize(e) by {
      assert |log[end..]| == |log| - end;
    }
    if Parse(log, end).Ok? {
      var es := Parse(log, end).value;
      if es != [] {
        ParsedStands(log, end, es, 0);
        Pow256Values();
        NumberBound(log, end + 8, 4);
        NumberBound(log, end + 12, 4);
        assert |es[0].key| < TWO_32 && |es[0].value| < TWO_32;
        assert ToEntry(es[0]).key == es[0].key && ToEntry(e).key == e.key;
      }
      NotReadBack(log, end, es, e);
    }
  }

  lemma {:induction false} OversizedLost(d: DiskState, t: DiskState, mem: Table, r: Reading, e: LogEntry)
    requires AddsUp(d, mem, Whole, r) && !Fits(e) && t.files == d.files && t.log == d.log + Encode(e)
    requires (e.op == OP_DELETE ==> e.value == []) && Find(mem, e.key) != Some(ToEntry(e))
    ensures Recover(t) != Ok(Applied(mem, e))
  {
    WholeEnds(d.log, r);
    assert t.log[BaseOffset(d)..r.end] == d.log[BaseOffset(d)..r.end];
    assert t.log[r.end..] == Encode(e);
    OversizedNotRead(t.log, r.end, e);
    NotRecovered(t, mem, r.es, r.end, e);
  }

  // ---- clean exactly when recovered ----

  /**
   * From every clean reachable state: an acknowledged write that changes its key's slot, and does not
   * rotate the log, is recovered if and only if the state stays clean.
   */
  lemma {:induction false} RecoveredIffClean(s: System, e: LogEntry, maxSize: int)
    requires Reachable(s, maxSize) && s.clean && s.phase.Up? && !Rotates(s.disk, maxSize)
    requires (e.op == OP_DELETE ==> e.value == []) && Find(s.phase.mem, e.key) != Some(ToEntry(e))
    requires s.tail == Torn ==> !Stamped(s.disk.log + Encode(e), TornAt(s.disk), e.timestamp)
    ensures var t := Next(s, Write(e, Appends), maxSize);
            (Recover(t.disk) == Ok(LiveTable(t)) <==> t.clean) && (t.clean <==> s.tail == Whole && Fits(e))
  {
    var t := Next(s, Write(e, Appends), maxSize);
    ReachableInv(s, maxSize);
    ReachableNext(s, Write(e, Appends), maxSize);
    RotatedSame(s.disk, maxSize);
    if s.tail == Torn {
      TornTailLosesWrite(s, e, maxSize);
    } else if Fits(e) {
      RecoveryIsExact(t, maxSize);
    } else {
      var r: Reading :| AddsUp(s.disk, LiveTable(s), s.tail, r);
      OversizedLost(s.disk, t.disk, s.phase.mem, r, e);
    }
  }

  // ---- a failed sync ----

  lemma {:induction false} BytesGrow(log: Bytes, es: seq<LogEntry>, e: LogEntry)
    ensures log + EncodeAll(es) + Encode(e) == log + EncodeAll(es + [e])
  {
    EncodeOne(e);
    EncodeAllConcat(es, [e]);
  }

  /** Writes that do not rotate the log append exactly their records. */
  lemma {:induction false} UnrotatedLog(s: System, es: seq<LogEntry>, maxSize: int)
    requires s.phase.Up? && LastRotation(s, es, maxSize) == None
    ensures var t := AfterWrites(s, es, maxSize);
            && t.disk.files == s.disk.files && t.disk.log == s.disk.log + EncodeAll(es)
            && LiveTable(t) == Replayed(LiveTable(s), es)
  {
    if es == [] {
      assert s.disk.log + [] == s.disk.log;
    } else {
      var n := |es| - 1;
      var before := AfterWrites(s, es[..n], maxSize);
      UnrotatedLog(s, es[..n], maxSize);
      RotatedSame(before.disk, maxSize);
      assert es == es[..n] + [es[n]];
      BytesGrow(s.disk.log, es[..n], es[n]);
      ReplayedSnoc(LiveTable(s), es[..n], es[n]);
    }
  }

  /**
   * A write whose sync failed, from any clean state with a whole log, and any writes after it that do
   * not rotate the log: recovery is exact if and only if the key was written again, or the failed
   * write would not have changed its slot.
   */
  lemma {:induction false} FailedSyncRecoversIff(s: System, e: LogEntry, es: seq<LogEntry>, maxSize: int)
    requires Reachable(s, maxSize) && s.clean && s.phase.Up? && s.tail == Whole && !Rotates(s.disk, maxSize)
    requires Fits(e) && AllFit(es) && LastRotation(Next(s, Write(e, SyncFails), maxSize), es, maxSize) == None
    ensures var t := AfterWrites(Next(s, Write(e, SyncFails), maxSize), es, maxSize);
            Recover(t.disk) == Ok(LiveTable(t))
            <==> LastWrite(es, e.key).Some? || Find(s.phase.mem, e.key) == Some(ToEntry(e))
  {
    ReachableInv(s, maxSize);
    var f := Next(s, Write(e, SyncFails), maxSize);
    RotatedSame(s.disk, maxSize);
    UnrotatedLog(f, es, maxSize);
    var r: Reading :| AddsUp(s.disk, LiveTable(s), s.tail, r);
    RecoverAll(s.disk, AfterWrites(f, es, maxSize).disk, s.phase.mem, r, e, es);
    OneSkippedIff(s.phase.mem, e, es);
  }

  /**
   * Leaving out the first of some records gives the same table exactly if its key is written again, or
   * had its slot.
   */
  lemma {:induction false} OneSkippedIff(m: Table, e: LogEntry, es: seq<LogEntry>)
    ensures Replayed(m, [e] + es) == Replayed(m, es)
       <==> LastWrite(es, e.key).Some? || Find(m, e.key) == Some(ToEntry(e))
  {
    GapOnBase(m, [e], es);
    forall k ensures LastInGap([e], es, k) <==> k == e.key && LastWrite(es, k).None? {
      OneWrite(e, k);
    }
    OneWrite(e, e.key);
  }

  lemma {:induction false} OneWrite(e: LogEntry, key: Key)
    ensures LastWrite([e], key) == if key == e.key then Some(ToEntry(e)) else None
  {
    assert [e][..0] == [];
  }

  lemma {:induction false} RecordsFollow(log: Bytes, at: nat, before: seq<LogEntry>, e: LogEntry, es: seq<LogEntry>)
    requires at <= |log| && log[at..] == EncodeAll(before)
    ensures (log + Encode(e) + EncodeAll(es))[at..] == EncodeAll(before + ([e] + es))
  {
    assert (log + Encode(e) + EncodeAll(es))[at..] == EncodeAll(before) + (Encode(e) + EncodeAll(es));
    EncodeOne(e);
    EncodeAllConcat([e], es);
    EncodeAllConcat(before, [e] + es);
  }

  lemma {:induction false} RecoverAll(d: DiskState, t: DiskState, mem: Table, r: Reading, e: LogEntry,
                                      es: seq<LogEntry>)
    requires AddsUp(d, mem, Whole, r) && Fits(e) && AllFit(es)
    requires t.files == d.files && t.log == d.log + Encode(e) + EncodeAll(es)
    ensures Recover(t) == Ok(Replayed(mem, [e] + es))
  {
    WholeEnds(d.log, r);
    RecordsFollow(d.log, BaseOffset(d), r.es, e, es);
    RecoverWhole(t, r.es + ([e] + es));
    ReplayedConcat(BaseTable(d), r.es, [e] + es);
  }
}
