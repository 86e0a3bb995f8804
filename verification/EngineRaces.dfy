/**
 * Concurrent writers and concurrent snapshots, over any number of restarts. A write appends its record
 * and applies it to the memtable in two steps; a snapshot reads the memtable, reads the log size, and
 * becomes the latest file in three steps, and nothing excludes the writers in between. Records are
 * counted here rather than bytes.
 */
module EngineRaces {
  import opened Common
  import opened StorageTypes
  import opened LogFormat
  import opened Recovery

  /** The memtable as a snapshot read it, and how many records had been applied by then. */
  datatype View = View(table: Table, seen: nat)

  /** A snapshot's contents with the number of records below the offset it recorded. */
  datatype Image = Image(view: View, below: nat)

  /**
   * The records in the log, the indices of those already applied in the order they were applied, the
   * memtable, the snapshots that have read the memtable, those that have read the offset as well, the
   * latest finished one, and how many records the log had when the engine last started.
   */
  datatype System = System(
    log: seq<LogEntry>,
    applied: seq<nat>,
    mem: Table,
    reading: map<nat, View>,
    ready: map<nat, Image>,
    snap: Image,
    born: nat)

  datatype Step =
    | Append(e: LogEntry)
    | Apply(i: nat)
    | ReadMemtable(id: nat)
    | ReadOffset(id: nat)
    | Publish(id: nat)
    | Restart

  predicate IsInitial(s: System) {
    s == System([], [], map[], map[], map[], Image(View(map[], 0), 0), 0)
  }

  /**
   * Each writer applies its own record once; nothing orders two writers, even on one key. Writers and
   * snapshots under way do not outlive a restart. The condition on Restart holds in every run.
   */
  predicate Enabled(s: System, step: Step) {
    match step
    case Append(_) => true
    case Apply(i) => s.born <= i < |s.log| && i !in s.applied
    case ReadMemtable(_) => true
    case ReadOffset(id) => id in s.reading
    case Publish(id) => id in s.ready
    case Restart => s.snap.below <= |s.log| && s.snap.view.seen <= |s.applied|
  }

  /** What Open would rebuild. */
  function Rebuilt(s: System): Table
    requires s.snap.below <= |s.log|
  {
    Replayed(s.snap.view.table, s.log[s.snap.below..])
  }

  /** The numbers from `lo` to below `hi`. */
  function Range(lo: nat, hi: nat): (r: seq<nat>)
    requires lo <= hi
    ensures |r| == hi - lo && forall j :: 0 <= j < |r| ==> r[j] == lo + j
  {
    seq(hi - lo, j requires 0 <= j < hi - lo => lo + j)
  }

  function Next(s: System, step: Step): System
    requires Enabled(s, step)
  {
    match step
    case Append(e) => s.(log := s.log + [e])
    case Apply(i) => s.(applied := s.applied + [i], mem := Applied(s.mem, s.log[i]))
    case ReadMemtable(id) => s.(reading := s.reading[id := View(s.mem, |s.applied|)])
    case ReadOffset(id) =>
      s.(ready := s.ready[id := Image(s.reading[id], |s.log|)], reading := s.reading - {id})
    case Publish(id) => s.(snap := s.ready[id], ready := s.ready - {id})
    case Restart =>
      System(s.log, s.applied[..s.snap.view.seen] + Range(s.snap.below, |s.log|), Rebuilt(s),
             map[], map[], s.snap, |s.log|)
  }

  ghost predicate IsRun(s: System, steps: seq<Step>)
    decreases steps
  {
    steps == [] || (Enabled(s, steps[0]) && IsRun(Next(s, steps[0]), steps[1..]))
  }

  ghost function After(s: System, steps: seq<Step>): System
    requires IsRun(s, steps)
    decreases steps
  {
    if steps == [] then s else After(Next(s, steps[0]), steps[1..])
  }

  ghost predicate Reachable(s: System) {
    exists start: System, steps: seq<Step> :: IsInitial(start) && IsRun(start, steps) && After(start, steps) == s
  }

  /** No write is between its append and its application. */
  ghost predicate Quiet(s: System) {
    forall i :: s.born <= i < |s.log| ==> i in s.applied
  }

  /** The same on disk: a log holding these records and a snapshot at this offset. */
  lemma {:induction false} RebuiltOnDisk(s: System, d: DiskState)
    requires s.snap.below <= |s.log| && AllFit(s.log) && d.log == EncodeAll(s.log)
    requires BaseTable(d) == s.snap.view.table && BaseOffset(d) == |EncodeAll(s.log[..s.snap.below])|
    ensures Recover(d) == Ok(Rebuilt(s))
  {
    var below := s.snap.below;
    assert s.log == s.log[..below] + s.log[below..];
    EncodeAllConcat(s.log[..below], s.log[below..]);
    RecoverWhole(d, s.log[below..]);
  }

  // ---- what the memtable and the snapshots hold ----

  predicate Within(indices: seq<nat>, n: nat) {
    forall a :: 0 <= a < |indices| ==> indices[a] < n
  }

  /** The applied records, in the order they were applied. */
  function Records(log: seq<LogEntry>, applied: seq<nat>): (r: seq<LogEntry>)
    requires Within(applied, |log|)
    ensures |r| == |applied| && forall j :: 0 <= j < |r| ==> r[j] == log[applied[j]]
  {
    if applied == [] then [] else Records(log, applied[..|applied| - 1]) + [log[applied[|applied| - 1]]]
  }

  /** The table holds the effect of exactly the first `seen` applications. */
  ghost predicate Sees(v: View, log: seq<LogEntry>, applied: seq<nat>) {
    && v.seen <= |applied| && Within(applied[..v.seen], |log|)
    && v.table == Replayed(map[], Records(log, applied[..v.seen]))
  }

  /** Besides, every record the snapshot has seen lies below its offset. */
  ghost predicate ImageSound(i: Image, log: seq<LogEntry>, applied: seq<nat>) {
    i.below <= |log| && Sees(i.view, log, applied) && Within(applied[..i.view.seen], i.below)
  }

  ghost predicate ViewsSound(s: System) {
    && Within(s.applied, |s.log|) && Sees(View(s.mem, |s.applied|), s.log, s.applied)
    && (forall id :: id in s.reading ==> Sees(s.reading[id], s.log, s.applied))
    && (forall id :: id in s.ready ==> ImageSound(s.ready[id], s.log, s.applied))
    && ImageSound(s.snap, s.log, s.applied)
  }

  predicate NoRepeats(applied: seq<nat>) {
    forall a, b :: 0 <= a < b < |applied| ==> applied[a] != applied[b]
  }

  /** No record is applied twice, and what was behind the snapshot's offset at the last start is applied. */
  ghost predicate Incarnated(s: System) {
    && s.born <= |s.log| && NoRepeats(s.applied)
    && (forall id :: id in s.ready ==> s.ready[id].below >= s.born)
    && (forall i :: s.snap.below <= i < s.born ==> i in s.applied)
  }

  ghost predicate Inv(s: System) {
    ViewsSound(s) && Incarnated(s)
  }

  lemma {:induction false} RecordsOfLonger(log: seq<LogEntry>, e: LogEntry, applied: seq<nat>)
    requires Within(applied, |log|)
    ensures Records(log + [e], applied) == Records(log, applied)
  {
  }

  lemma {:induction false} RecordsSnoc(log: seq<LogEntry>, applied: seq<nat>, i: nat)
    requires Within(applied, |log|) && i < |log|
    ensures Records(log, applied + [i]) == Records(log, applied) + [log[i]]
    ensures Replayed(map[], Records(log, applied + [i])) == Applied(Replayed(map[], Records(log, applied)), log[i])
  {
    var was := Records(log, applied);
    assert Records(log, applied + [i]) == was + [log[i]];
    ReplayedConcat(map[], was, [log[i]]);
  }

  /** A view stays sound when the log grows or further records are applied. */
  lemma {:induction false} SeesGrows(v: View, log: seq<LogEntry>, applied: seq<nat>)
    requires Sees(v, log, applied)
    ensures forall e :: Sees(v, log + [e], applied)
    ensures forall i :: Sees(v, log, applied + [i])
  {
    forall e ensures Sees(v, log + [e], applied) {
      RecordsOfLonger(log, e, applied[..v.seen]);
    }
    forall i ensures Sees(v, log, applied + [i]) {
      assert (applied + [i])[..v.seen] == applied[..v.seen];
    }
  }

  lemma {:induction false} ImageGrows(m: Image, log: seq<LogEntry>, applied: seq<nat>)
    requires ImageSound(m, log, applied)
    ensures forall e :: ImageSound(m, log + [e], applied)
    ensures forall i :: ImageSound(m, log, applied + [i])
  {
    SeesGrows(m.view, log, applied);
    forall i ensures ImageSound(m, log, applied + [i]) {
      assert (applied + [i])[..m.view.seen] == applied[..m.view.seen];
    }
  }

  /** Appending and applying disturb no snapshot, finished or not. */
  lemma {:induction false} SnapshotsStaySound(s: System, t: System)
    requires ViewsSound(s) && t.reading == s.reading && t.ready == s.ready && t.snap == s.snap
    requires (exists e :: t.log == s.log + [e] && t.applied == s.applied)
          || (exists i :: t.log == s.log && t.applied == s.applied + [i])
    ensures forall id :: id in t.reading ==> Sees(t.reading[id], t.log, t.applied)
    ensures forall id :: id in t.ready ==> ImageSound(t.ready[id], t.log, t.applied)
    ensures ImageSound(t.snap, t.log, t.applied)
  {
    forall id | id in s.reading ensures Sees(s.reading[id], t.log, t.applied) {
      SeesGrows(s.reading[id], s.log, s.applied);
    }
    forall id | id in s.ready ensures ImageSound(s.ready[id], t.log, t.applied) {
      ImageGrows(s.ready[id], s.log, s.applied);
    }
    ImageGrows(s.snap, s.log, s.applied);
  }

  lemma {:induction false} WholeSlice(s: seq<nat>)
    ensures s[..|s|] == s
  {
  }

  lemma {:induction false} AppendKeepsViews(s: System, e: LogEntry)
    requires ViewsSound(s)
    ensures ViewsSound(Next(s, Append(e)))
  {
    var t := Next(s, Append(e));
    SeesGrows(View(s.mem, |s.applied|), s.log, s.applied);
    assert t.log == s.log + [e] && t.applied == s.applied;
    SnapshotsStaySound(s, t);
  }

  lemma {:induction false} ApplyKeepsViews(s: System, i: nat)
    requires ViewsSound(s) && Enabled(s, Apply(i))
    ensures ViewsSound(Next(s, Apply(i)))
  {
    var t := Next(s, Apply(i));
    WholeSlice(s.applied);
    WholeSlice(t.applied);
    RecordsSnoc(s.log, s.applied, i);
    SnapshotsStaySound(s, t);
  }

  lemma {:induction false} RecordsConcat(log: seq<LogEntry>, a: seq<nat>, b: seq<nat>)
    requires Within(a, |log|) && Within(b, |log|)
    ensures Within(a + b, |log|) && Records(log, a + b) == Records(log, a) + Records(log, b)
  {
  }

  lemma {:induction false} RecordsOfRange(log: seq<LogEntry>, lo: nat)
    requires lo <= |log|
    ensures Records(log, Range(lo, |log|)) == log[lo..]
  {
  }

  /** What a restart has done is to apply the records the snapshot had seen, and then those behind it. */
  lemma {:induction false} RestartKeepsViews(s: System)
    requires ViewsSound(s)
    ensures Enabled(s, Restart) && ViewsSound(Next(s, Restart))
  {
    var seen, behind := s.applied[..s.snap.view.seen], Range(s.snap.below, |s.log|);
    var t := Next(s, Restart);
    RecordsConcat(s.log, seen, behind);
    RecordsOfRange(s.log, s.snap.below);
    ReplayedConcat(map[], Records(s.log, seen), s.log[s.snap.below..]);
    WholeSlice(t.applied);
    assert t.applied[..s.snap.view.seen] == seen;
  }

  lemma {:induction false} RestartIncarnates(s: System)
    requires ViewsSound(s) && Incarnated(s)
    ensures Enabled(s, Restart) && Incarnated(Next(s, Restart))
  {
    var seen, behind := s.applied[..s.snap.view.seen], Range(s.snap.below, |s.log|);
    var t := Next(s, Restart);
    forall i | s.snap.below <= i < t.born ensures i in t.applied {
      assert behind[i - s.snap.below] == i;
    }
    assert forall a :: 0 <= a < |seen| ==> seen[a] == s.applied[a] && seen[a] < s.snap.below;
  }

  lemma {:induction false} StepKeepsIncarnated(s: System, step: Step)
    requires ViewsSound(s) && Incarnated(s) && Enabled(s, step)
    ensures Incarnated(Next(s, step))
  {
    if step.Restart? {
      RestartIncarnates(s);
    }
  }

  lemma {:induction false} StepKeepsViews(s: System, step: Step)
    requires ViewsSound(s) && Enabled(s, step)
    ensures ViewsSound(Next(s, step))
  {
    match step
    case Append(e) => AppendKeepsViews(s, e);
    case Apply(i) => ApplyKeepsViews(s, i);
    case ReadMemtable(_) =>
    case ReadOffset(_) =>
      WholeSlice(s.applied);
    case Publish(_) =>
    case Restart => RestartKeepsViews(s);
  }

  lemma {:induction false} StepKeepsInv(s: System, step: Step)
    requires Inv(s) && Enabled(s, step)
    ensures Inv(Next(s, step))
  {
    StepKeepsViews(s, step);
    StepKeepsIncarnated(s, step);
  }

  lemma {:induction false} RunKeepsInv(s: System, steps: seq<Step>)
    requires Inv(s) && IsRun(s, steps)
    ensures Inv(After(s, steps))
    decreases steps
  {
    if steps == [] {
    } else {
      StepKeepsInv(s, steps[0]);
      RunKeepsInv(Next(s, steps[0]), steps[1..]);
    }
  }

  lemma {:induction false} ReachableInv(s: System)
    requires Reachable(s)
    ensures Inv(s)
  {
    var start: System, steps: seq<Step> :| IsInitial(start) && IsRun(start, steps) && After(start, steps) == s;
    RunKeepsInv(start, steps);
  }

  lemma {:induction false} ExtendRun(s: System, steps: seq<Step>, last: Step)
    requires IsRun(s, steps) && Enabled(After(s, steps), last)
    ensures IsRun(s, steps + [last]) && After(s, steps + [last]) == Next(After(s, steps), last)
    decreases steps
  {
    var all := steps + [last];
    if steps == [] {
      assert all[1..] == [];
    } else {
      ExtendRun(Next(s, steps[0]), steps[1..], last);
      assert all[1..] == steps[1..] + [last];
    }
  }

  lemma {:induction false} ReachableNext(s: System, step: Step)
    requires Reachable(s) && Enabled(s, step)
    ensures Reachable(Next(s, step))
  {
    var start: System, steps: seq<Step> :| IsInitial(start) && IsRun(start, steps) && After(start, steps) == s;
    ExtendRun(start, steps, step);
  }

  lemma {:induction false} ReachableAfter(s: System, steps: seq<Step>)
    requires Reachable(s) && IsRun(s, steps)
    ensures Reachable(After(s, steps))
    decreases steps
  {
    if steps == [] {
    } else {
      ReachableNext(s, steps[0]);
      ReachableAfter(Next(s, steps[0]), steps[1..]);
    }
  }

  // ---- positions in the log and in the order of application ----

  /** Where the last record for `key` stands. */
  function LastIndex(es: seq<LogEntry>, key: Key): Option<nat> {
    if es == [] then None
    else if es[|es| - 1].key == key then Some(|es| - 1)
    else LastIndex(es[..|es| - 1], key)
  }

  lemma {:induction false} LastIndexIs(es: seq<LogEntry>, key: Key)
    ensures LastIndex(es, key).None? ==>
              LastWrite(es, key) == None && forall j :: 0 <= j < |es| ==> es[j].key != key
    ensures LastIndex(es, key).Some? ==>
              var n := LastIndex(es, key).value;
              && n < |es| && es[n].key == key && LastWrite(es, key) == Some(ToEntry(es[n]))
              && forall j :: n < j < |es| ==> es[j].key != key
  {
    if es == [] {
    } else if es[|es| - 1].key == key {
    } else {
      LastIndexIs(es[..|es| - 1], key);
    }
  }

  /** The slot of the record for `key` that was applied last. */
  function LastApplied(s: System, key: Key): Option<Entry>
    requires Within(s.applied, |s.log|)
  {
    LastWrite(Records(s.log, s.applied), key)
  }

  /** The slot for `key` in the latest snapshot: that of the last record it has seen applied. */
  function SeenSlot(s: System, key: Key): Option<Entry>
    requires s.snap.view.seen <= |s.applied| && Within(s.applied, |s.log|)
  {
    LastWrite(Records(s.log, s.applied[..s.snap.view.seen]), key)
  }

  /** No record overtook an earlier one for the same key. */
  ghost predicate InKeyOrder(s: System)
    requires Within(s.applied, |s.log|)
  {
    forall a, b :: 0 <= a < b < |s.applied| && s.log[s.applied[a]].key == s.log[s.applied[b]].key
      ==> s.applied[a] < s.applied[b]
  }

  /** The n-th record is the last one for its key. */
  predicate LastForKey(log: seq<LogEntry>, n: nat) {
    n < |log| && forall j :: n < j < |log| ==> log[j].key != log[n].key
  }

  /** A key that occurs has a last position, no earlier than any other. */
  lemma {:induction false} LastNoEarlier(es: seq<LogEntry>, q: nat, key: Key) returns (p: nat)
    requires q < |es| && es[q].key == key
    ensures LastIndex(es, key) == Some(p) && q <= p < |es| && es[p].key == key
    ensures LastWrite(es, key) == Some(ToEntry(es[p]))
  {
    LastIndexIs(es, key);
    p := LastIndex(es, key).value;
  }

  /** Whatever is behind the snapshot's offset has been applied, once no write is under way. */
  lemma {:induction false} BehindIsApplied(s: System, i: nat)
    requires Incarnated(s) && Quiet(s) && s.snap.below <= i < |s.log|
    ensures i in s.applied
  {
  }

  /** Which records the last positions of a key in the log and in the order of application stand for. */
  lemma {:induction false} PositionsOf(s: System, key: Key)
    requires Within(s.applied, |s.log|)
    ensures var n, p := LastIndex(s.log, key), LastIndex(Records(s.log, s.applied), key);
            && (n.None? ==> p.None?) && (p.None? ==> LastApplied(s, key) == None)
            && (n.Some? ==> n.value < |s.log| && LastWrite(s.log, key) == Some(ToEntry(s.log[n.value])))
            && (n.Some? && n.value in s.applied ==> p.Some?)
            && (p.Some? ==> n.Some? && AppliedAt(s, key, n.value, p.value))
            && (p.Some? && InKeyOrder(s) && n.value in s.applied ==> s.applied[p.value] == n.value)
  {
    var rs := Records(s.log, s.applied);
    LastIndexIs(s.log, key);
    LastIndexIs(rs, key);
    if LastIndex(rs, key).Some? {
      var p := LastIndex(rs, key).value;
      assert s.log[s.applied[p]] == rs[p];
    }
    if LastIndex(s.log, key).Some? && LastIndex(s.log, key).value in s.applied {
      var q := IndexOf(s.applied, LastIndex(s.log, key).value);
      assert rs[q] == s.log[s.applied[q]];
      var p := LastNoEarlier(rs, q, key);
    }
  }

  /** The p-th application is the last for `key`, whose last record is the n-th. */
  predicate AppliedAt(s: System, key: Key, n: nat, p: nat)
    requires Within(s.applied, |s.log|)
  {
    && p < |s.applied| && s.log[s.applied[p]].key == key && s.applied[p] <= n
    && LastApplied(s, key) == Some(ToEntry(s.log[s.applied[p]]))
  }

  lemma {:induction false} IndexOf(s: seq<nat>, x: nat) returns (q: nat)
    requires x in s
    ensures q < |s| && s[q] == x
  {
    q :| 0 <= q < |s| && s[q] == x;
  }

  /** No two records for one key leave the same slot, as when their timestamps differ. */
  ghost predicate DistinctSlots(log: seq<LogEntry>) {
    forall i, j :: 0 <= i < j < |log| && log[i].key == log[j].key ==> ToEntry(log[i]) != ToEntry(log[j])
  }

  lemma {:induction false} SameSlotSameIndex(log: seq<LogEntry>, i: nat, j: nat)
    requires DistinctSlots(log) && i < |log| && j < |log| && log[i].key == log[j].key
    requires ToEntry(log[i]) == ToEntry(log[j])
    ensures i == j
  {
  }

  /** The record for `key` applied last is the one logged last. */
  predicate LastIsLast(s: System, key: Key)
    requires Within(s.applied, |s.log|)
  {
    match (LastIndex(s.log, key), LastIndex(Records(s.log, s.applied), key))
    case (Some(n), Some(p)) => p < |s.applied| && s.applied[p] == n
    case (None, _) => true
    case (Some(_), None) => false
  }

  lemma {:induction false} LastIsLastIff(s: System, key: Key)
    requires Within(s.applied, |s.log|)
    ensures LastIsLast(s, key) ==> LastApplied(s, key) == LastWrite(s.log, key)
    ensures DistinctSlots(s.log) && LastApplied(s, key) == LastWrite(s.log, key) ==> LastIsLast(s, key)
    ensures InKeyOrder(s) && (forall i :: 0 <= i < |s.log| ==> i in s.applied) ==> LastIsLast(s, key)
  {
    PositionsOf(s, key);
    LastIndexIs(s.log, key);
    var n, p := LastIndex(s.log, key), LastIndex(Records(s.log, s.applied), key);
    if n.Some? && p.Some? && DistinctSlots(s.log) && LastApplied(s, key) == LastWrite(s.log, key) {
      SameSlotSameIndex(s.log, s.applied[p.value], n.value);
    }
  }

  /**
   * Whatever the interleaving: the memtable is the replay of the whole log if and only if for every
   * key the record applied last has the slot of the record logged last; if slots differ, if and only
   * if it is that record. If every record was applied and none overtook an earlier one for its key, it
   * always is.
   */
  lemma {:induction false} MemtableIsReplayIff(s: System)
    requires Reachable(s)
    ensures Within(s.applied, |s.log|)
    ensures s.mem == Replayed(map[], s.log) <==> forall k :: LastApplied(s, k) == LastWrite(s.log, k)
    ensures DistinctSlots(s.log) ==> (s.mem == Replayed(map[], s.log) <==> forall k :: LastIsLast(s, k))
    ensures (forall i :: 0 <= i < |s.log| ==> i in s.applied) && InKeyOrder(s) ==> s.mem == Replayed(map[], s.log)
  {
    ReachableInv(s);
    WholeSlice(s.applied);
    forall k
      ensures Find(s.mem, k) == LastApplied(s, k) && Find(Replayed(map[], s.log), k) == LastWrite(s.log, k)
      ensures LastIsLast(s, k) ==> LastApplied(s, k) == LastWrite(s.log, k)
      ensures DistinctSlots(s.log) && LastApplied(s, k) == LastWrite(s.log, k) ==> LastIsLast(s, k)
      ensures InKeyOrder(s) && (forall i :: 0 <= i < |s.log| ==> i in s.applied) ==> LastIsLast(s, k)
    {
      LastWriteDecides(map[], Records(s.log, s.applied), k);
      LastWriteDecides(map[], s.log, k);
      LastIsLastIff(s, k);
    }
    if forall k :: LastApplied(s, k) == LastWrite(s.log, k) {
      SameFinds(s.mem, Replayed(map[], s.log));
    }
  }

  // ---- when a restart rebuilds the live table ----

  /**
   * What has to have happened to a key whose last record is the n-th of the log and whose record
   * applied last is the p-th applied. If the n-th is behind the snapshot's offset, it was also applied
   * last; otherwise the record applied last was applied before the snapshot read the memtable. Either
   * may fail only if the other record left the same slot; `had` is the slot the snapshot has.
   */
  predicate SurvivesAt(s: System, n: nat, p: nat, had: Option<Entry>)
    requires n < |s.log| && p < |s.applied| && s.applied[p] < |s.log|
  {
    var last := s.log[s.applied[p]];
    if n >= s.snap.below then s.applied[p] == n || ToEntry(last) == ToEntry(s.log[n])
    else p < s.snap.view.seen || had == Some(ToEntry(last))
  }

  ghost predicate Survives(s: System, key: Key)
    requires Inv(s)
  {
    match (LastIndex(s.log, key), LastIndex(Records(s.log, s.applied), key))
    case (Some(n), Some(p)) =>
      LastIndexIs(s.log, key);
      LastIndexIs(Records(s.log, s.applied), key);
      SurvivesAt(s, n, p, SeenSlot(s, key))
    case _ => true
  }

  /** What a restart finds for `key`: its last record behind the offset, or else the snapshot's slot. */
  lemma {:induction false} RebuiltFinds(s: System, key: Key)
    requires Inv(s)
    ensures Find(s.mem, key) == LastApplied(s, key)
    ensures Find(Rebuilt(s), key) == Or(LastWrite(s.log[s.snap.below..], key), SeenSlot(s, key))
  {
    WholeSlice(s.applied);
    LastWriteDecides(map[], Records(s.log, s.applied), key);
    LastWriteDecides(map[], Records(s.log, s.applied[..s.snap.view.seen]), key);
    LastWriteDecides(s.snap.view.table, s.log[s.snap.below..], key);
  }

  /** The last record of the whole log for `key` decides whether there is one behind position `at`. */
  lemma {:induction false} LastBehind(log: seq<LogEntry>, at: nat, key: Key)
    requires at <= |log|
    ensures LastIndex(log, key).None? ==> LastWrite(log[at..], key) == None
    ensures LastIndex(log, key).Some? ==>
              LastWrite(log[at..], key) == if LastIndex(log, key).value >= at then LastWrite(log, key) else None
  {
    var behind := log[at..];
    LastIndexIs(log, key);
    LastIndexIs(behind, key);
    assert log == log[..at] + behind;
    LastWriteConcat(log[..at], behind, key);
    if LastIndex(behind, key).Some? {
      assert log[at + LastIndex(behind, key).value].key == key;
    }
    if LastIndex(log, key).Some? && LastIndex(log, key).value >= at {
      assert behind[LastIndex(log, key).value - at].key == key;
    }
  }

  lemma {:induction false} RecordsPrefix(log: seq<LogEntry>, applied: seq<nat>, k: nat)
    requires Within(applied, |log|) && k <= |applied|
    ensures Records(log, applied[..k]) == Records(log, applied)[..k]
  {
  }

  /** A prefix that has the last record for a key has it as its last, too. */
  lemma {:induction false} PrefixLast(es: seq<LogEntry>, k: nat, key: Key)
    requires k <= |es|
    ensures LastIndex(es, key).None? ==> LastWrite(es[..k], key) == None
    ensures LastIndex(es, key).Some? && LastIndex(es, key).value < k ==> LastWrite(es[..k], key) == LastWrite(es, key)
  {
    LastIndexIs(es, key);
    LastIndexIs(es[..k], key);
    if LastIndex(es, key).Some? && LastIndex(es, key).value < k {
      assert es[..k][LastIndex(es, key).value].key == key;
    }
  }

  /** Of the applications seen, the last for a key is the last of all if that one was seen. */
  lemma {:induction false} SeenLast(s: System, key: Key)
    requires Inv(s)
    ensures LastIndex(Records(s.log, s.applied), key).None? ==> SeenSlot(s, key) == None
    ensures LastIndex(Records(s.log, s.applied), key).Some?
         && LastIndex(Records(s.log, s.applied), key).value < s.snap.view.seen
         ==> SeenSlot(s, key) == LastApplied(s, key)
  {
    RecordsPrefix(s.log, s.applied, s.snap.view.seen);
    PrefixLast(Records(s.log, s.applied), s.snap.view.seen, key);
  }

  /** The restart's slot is the live one exactly if the key survives, in terms of the two positions. */
  lemma {:induction false} SurvivesAtIff(s: System, n: nat, p: nat, had: Option<Entry>, behind: Option<Entry>,
                                         live: Option<Entry>)
    requires n < |s.log| && p < |s.applied| && s.applied[p] < |s.log|
    requires behind == if n >= s.snap.below then Some(ToEntry(s.log[n])) else None
    requires live == Some(ToEntry(s.log[s.applied[p]])) && (p < s.snap.view.seen ==> had == live)
    ensures SurvivesAt(s, n, p, had) <==> Or(behind, had) == live
  {
  }

  lemma {:induction false} SurvivesIff(s: System, key: Key)
    requires Inv(s) && Quiet(s)
    ensures Survives(s, key) <==> Find(Rebuilt(s), key) == Find(s.mem, key)
  {
    RebuiltFinds(s, key);
    LastBehind(s.log, s.snap.below, key);
    SeenLast(s, key);
    PositionsOf(s, key);
    var n, p := LastIndex(s.log, key), LastIndex(Records(s.log, s.applied), key);
    if n.Some? && n.value >= s.snap.below {
      BehindIsApplied(s, n.value);
    }
    if p.Some? {
      SurvivesAtIff(s, n.value, p.value, SeenSlot(s, key), LastWrite(s.log[s.snap.below..], key), LastApplied(s, key));
    }
  }

  /** A slot the snapshot has came from a record it has seen. */
  lemma {:induction false} SlotWasSeen(s: System, n: nat)
    requires Inv(s) && DistinctSlots(s.log) && n < |s.log| && SeenSlot(s, s.log[n].key) == Some(ToEntry(s.log[n]))
    ensures n in s.applied[..s.snap.view.seen]
  {
    var seen := s.applied[..s.snap.view.seen];
    var rs := Records(s.log, seen);
    var q := SlotComesFrom(rs, s.log[n].key, ToEntry(s.log[n]));
    assert rs[q] == s.log[seen[q]];
    SameSlotSameIndex(s.log, seen[q], n);
  }

  lemma {:induction false} SlotComesFrom(es: seq<LogEntry>, key: Key, slot: Entry) returns (q: nat)
    requires LastWrite(es, key) == Some(slot)
    ensures q < |es| && es[q].key == key && ToEntry(es[q]) == slot
  {
    LastIndexIs(es, key);
    q := LastIndex(es, key).value;
  }

  /** No record is applied twice, so the first `k` applications include the p-th or not. */
  lemma {:induction false} AmongFirst(applied: seq<nat>, p: nat, k: nat)
    requires NoRepeats(applied) && p < |applied| && k <= |applied|
    ensures applied[p] in applied[..k] <==> p < k
  {
    if p < k {
      assert applied[..k][p] == applied[p];
    }
    if applied[p] in applied[..k] {
      var q := IndexOf(applied[..k], applied[p]);
      assert applied[q] == applied[p];
    }
  }

  /** The same by positions alone: which record was applied last, and whether the snapshot had seen that. */
  predicate SurvivesByPosition(s: System, key: Key)
    requires Within(s.applied, |s.log|)
  {
    match (LastIndex(s.log, key), LastIndex(Records(s.log, s.applied), key))
    case (Some(n), Some(p)) =>
      if n >= s.snap.below then p < |s.applied| && s.applied[p] == n else p < s.snap.view.seen
    case _ => true
  }

  lemma {:induction false} PositionsSuffice(s: System, key: Key)
    requires Inv(s) && DistinctSlots(s.log)
    ensures Survives(s, key) <==> SurvivesByPosition(s, key)
  {
    PositionsOf(s, key);
    var n, p := LastIndex(s.log, key), LastIndex(Records(s.log, s.applied), key);
    if p.Some? {
      var i := s.applied[p.value];
      if n.value >= s.snap.below {
        LastIndexIs(s.log, key);
        if ToEntry(s.log[i]) == ToEntry(s.log[n.value]) {
          SameSlotSameIndex(s.log, i, n.value);
        }
      } else {
        AmongFirst(s.applied, p.value, s.snap.view.seen);
        if SeenSlot(s, key) == Some(ToEntry(s.log[i])) {
          SlotWasSeen(s, i);
        }
      }
    }
  }

  /**
   * Over every interleaving of writers, snapshots and restarts, in a quiet state: Open rebuilds the
   * live table if and only if every key survives. If slots differ, that is if and only if for every
   * key whose last record is behind the snapshot's offset that record was also applied last, and for
   * every other key nothing was applied after the snapshot had read the memtable.
   */
  lemma {:induction false} RacesRebuildIff(s: System)
    requires Reachable(s) && Quiet(s)
    ensures Inv(s) && (Rebuilt(s) == s.mem <==> forall k :: Survives(s, k))
    ensures DistinctSlots(s.log) ==> (Rebuilt(s) == s.mem <==> forall k :: SurvivesByPosition(s, k))
  {
    ReachableInv(s);
    forall k
      ensures Survives(s, k) <==> Find(Rebuilt(s), k) == Find(s.mem, k)
      ensures DistinctSlots(s.log) ==> (Survives(s, k) <==> SurvivesByPosition(s, k))
    {
      SurvivesIff(s, k);
      if DistinctSlots(s.log) {
        PositionsSuffice(s, k);
      }
    }
    if forall k :: Survives(s, k) {
      SameFinds(Rebuilt(s), s.mem);
    }
  }

  /** The n-th record was applied before the latest snapshot read the memtable, or the slot it had is the same. */
  predicate SeenOrSameAt(s: System, n: nat, had: Option<Entry>)
    requires n < |s.log| && s.snap.view.seen <= |s.applied|
  {
    n in s.applied[..s.snap.view.seen] || had == Some(ToEntry(s.log[n]))
  }

  ghost predicate SeenOrSame(s: System, n: nat)
    requires Inv(s) && n < |s.log|
  {
    SeenOrSameAt(s, n, SeenSlot(s, s.log[n].key))
  }

  /** Of the records applied, the n-th is the last for its key. */
  ghost predicate LastAppliedForKey(s: System, n: nat) {
    n < |s.log| && n in s.applied && forall j :: n < j < |s.log| && j in s.applied ==> s.log[j].key != s.log[n].key
  }

  /** Without overtaking, the last application for a key is that of its last applied record. */
  lemma {:induction false} LastAppliedIs(s: System, n: nat)
    requires Within(s.applied, |s.log|) && InKeyOrder(s) && LastAppliedForKey(s, n)
    ensures var p := LastIndex(Records(s.log, s.applied), s.log[n].key);
            p.Some? && p.value < |s.applied| && s.applied[p.value] == n
  {
    var rs := Records(s.log, s.applied);
    var q := IndexOf(s.applied, n);
    assert rs[q] == s.log[n];
    var p := LastNoEarlier(rs, q, s.log[n].key);
    assert rs[p] == s.log[s.applied[p]];
    LaterPosition(s, n, q, p);
  }

  lemma {:induction false} LaterPosition(s: System, n: nat, q: nat, p: nat)
    requires Within(s.applied, |s.log|) && InKeyOrder(s) && LastAppliedForKey(s, n)
    requires q <= p < |s.applied| && s.applied[q] == n && s.log[s.applied[p]].key == s.log[n].key
    ensures s.applied[p] == n
  {
    assert s.applied[p] in s.applied;
  }

  lemma {:induction false} LastApplicationIs(s: System, key: Key)
    requires Within(s.applied, |s.log|) && InKeyOrder(s) && LastIndex(Records(s.log, s.applied), key).Some?
    ensures var p := LastIndex(Records(s.log, s.applied), key).value;
            p < |s.applied| && LastAppliedForKey(s, s.applied[p]) && s.log[s.applied[p]].key == key
  {
    var rs := Records(s.log, s.applied);
    LastIndexIs(rs, key);
    var p := LastIndex(rs, key).value;
    forall j | s.applied[p] < j < |s.log| && j in s.applied ensures s.log[j].key != key {
      var q := IndexOf(s.applied, j);
      assert rs[q] == s.log[j];
    }
  }

  lemma {:induction false} OrderedAt(s: System, n: nat, p: nat, had: Option<Entry>)
    requires Within(s.applied, |s.log|) && NoRepeats(s.applied) && s.snap.view.seen <= |s.applied|
    requires p < |s.applied| && n < |s.log| && s.applied[p] <= n && (n >= s.snap.below ==> s.applied[p] == n)
    ensures SurvivesAt(s, n, p, had) <==> s.applied[p] >= s.snap.below || SeenOrSameAt(s, s.applied[p], had)
  {
    AmongFirst(s.applied, p, s.snap.view.seen);
  }

  lemma {:induction false} OrderedSurvives(s: System, key: Key)
    requires Inv(s) && Quiet(s) && InKeyOrder(s)
    ensures var p := LastIndex(Records(s.log, s.applied), key);
            if p.None? then Survives(s, key)
            else
              && p.value < |s.applied| && LastAppliedForKey(s, s.applied[p.value])
              && s.log[s.applied[p.value]].key == key
              && (Survives(s, key)
                  <==> s.applied[p.value] >= s.snap.below || SeenOrSame(s, s.applied[p.value]))
  {
    PositionsOf(s, key);
    var n, p := LastIndex(s.log, key), LastIndex(Records(s.log, s.applied), key);
    if p.Some? {
      if n.value >= s.snap.below {
        BehindIsApplied(s, n.value);
      }
      LastApplicationIs(s, key);
      OrderedAt(s, n.value, p.value, SeenSlot(s, key));
    }
  }

  /** Without overtaking, a key survives if its last applied record is behind the offset or was seen. */
  lemma {:induction false} OrderedSurvivesAt(s: System, n: nat)
    requires Inv(s) && Quiet(s) && InKeyOrder(s) && n < s.snap.below && LastAppliedForKey(s, n)
    ensures Survives(s, s.log[n].key) <==> SeenOrSame(s, n)
    ensures DistinctSlots(s.log) ==> (SeenOrSame(s, n) <==> n in s.applied[..s.snap.view.seen])
  {
    LastAppliedIs(s, n);
    OrderedSurvives(s, s.log[n].key);
    if DistinctSlots(s.log) && SeenSlot(s, s.log[n].key) == Some(ToEntry(s.log[n])) {
      SlotWasSeen(s, n);
    }
  }

  /** Without overtaking, a key can only be lost through a last applied record below the offset. */
  lemma {:induction false} OrderedLoss(s: System, key: Key) returns (n: nat)
    requires Inv(s) && Quiet(s) && InKeyOrder(s) && !Survives(s, key)
    ensures n < s.snap.below && LastAppliedForKey(s, n) && s.log[n].key == key
  {
    OrderedSurvives(s, key);
    n := s.applied[LastIndex(Records(s.log, s.applied), key).value];
  }

  /**
   * Without overtaking, Open rebuilds the live table if and only if every record below the snapshot's
   * offset that is the last applied for its key had been applied when the snapshot read the memtable,
   * or left the slot the key had then; the exception is void if slots differ.
   */
  lemma {:induction false} OrderedRacesRebuildIff(s: System)
    requires Reachable(s) && Quiet(s) && Within(s.applied, |s.log|) && InKeyOrder(s)
    ensures Inv(s)
    ensures Rebuilt(s) == s.mem <==>
              forall n :: 0 <= n < s.snap.below && LastAppliedForKey(s, n) ==> SeenOrSame(s, n)
    ensures DistinctSlots(s.log) ==>
              (Rebuilt(s) == s.mem <==>
                forall n :: 0 <= n < s.snap.below && LastAppliedForKey(s, n) ==>
                  n in s.applied[..s.snap.view.seen])
  {
    RacesRebuildIff(s);
    forall n | 0 <= n < s.snap.below && LastAppliedForKey(s, n)
      ensures SeenOrSame(s, n) <==> Survives(s, s.log[n].key)
      ensures DistinctSlots(s.log) ==> (SeenOrSame(s, n) <==> n in s.applied[..s.snap.view.seen])
    {
      OrderedSurvivesAt(s, n);
    }
    if k :| !Survives(s, k) {
      var n := OrderedLoss(s, k);
      assert LastAppliedForKey(s, n) && !SeenOrSame(s, n);
    }
  }

  // ---- restarts ----

  /** After a restart the live table is what was rebuilt, and another restart rebuilds the same. */
  lemma {:induction false} RestartIsStable(s: System)
    requires Reachable(s)
    ensures Enabled(s, Restart)
    ensures var t := Next(s, Restart); Reachable(t) && Quiet(t) && t.mem == Rebuilt(s) == Rebuilt(t)
  {
    ReachableInv(s);
    ReachableNext(s, Restart);
  }

  // ---- what a lock would give ----

  /** Every applied record below the latest snapshot's offset was applied before it read the memtable. */
  ghost predicate Complete(s: System) {
    && s.snap.view.seen <= |s.applied| && s.snap.below <= |s.log|
    && (forall i :: 0 <= i < s.snap.below && i in s.applied ==> i in s.applied[..s.snap.view.seen])
    && (forall i :: s.born <= i < s.snap.below ==> i in s.applied)
  }

  lemma {:induction false} CompleteSnapshotRebuilds(s: System)
    requires Reachable(s) && Quiet(s) && Within(s.applied, |s.log|) && InKeyOrder(s) && Complete(s)
    ensures Rebuilt(s) == s.mem
  {
    OrderedRacesRebuildIff(s);
  }

  predicate NoAppend(steps: seq<Step>) {
    forall i :: 0 <= i < |steps| ==> !steps[i].Append?
  }

  predicate NoPublish(steps: seq<Step>) {
    forall i :: 0 <= i < |steps| ==> !steps[i].Publish?
  }

  /** With all writes applied and none appended, every read sees all records. */
  lemma {:induction false} QuietReads(s: System, steps: seq<Step>, id: nat)
    requires Quiet(s) && IsRun(s, steps) && NoAppend(steps)
    requires id in s.reading ==> s.reading[id].seen == |s.applied|
    ensures var t := After(s, steps);
            Quiet(t) && (id in t.reading ==> t.reading[id].seen == |t.applied|)
    decreases steps
  {
    if steps == [] {
    } else {
      QuietReads(Next(s, steps[0]), steps[1..], id);
    }
  }

  lemma {:induction false} StepStaysComplete(s: System, step: Step)
    requires Complete(s) && Enabled(s, step) && !step.Publish?
    ensures Complete(Next(s, step)) && Next(s, step).snap == s.snap
  {
    var t := Next(s, step);
    assert t.applied[..s.snap.view.seen] == s.applied[..s.snap.view.seen];
    if step.Restart? {
      forall i | 0 <= i < s.snap.below && i in t.applied ensures i in t.applied[..s.snap.view.seen] {
        var q := IndexOf(t.applied, i);
        assert q < s.snap.view.seen;
        assert t.applied[..s.snap.view.seen][q] == i;
      }
    }
  }

  lemma {:induction false} StaysComplete(s: System, steps: seq<Step>)
    requires IsRun(s, steps) && NoPublish(steps) && Complete(s)
    ensures Complete(After(s, steps))
    decreases steps
  {
    if steps == [] {
    } else {
      StepStaysComplete(s, steps[0]);
      StaysComplete(Next(s, steps[0]), steps[1..]);
    }
  }

  /**
   * The protocol a lock would enforce: no writer between its append and its application when the
   * memtable is read, and no append before the offset is read. After it, and any further run without
   * overtaking that publishes no other snapshot, restarts included, a restart rebuilds the live table.
   */
  lemma {:induction false} LockedSnapshotRebuilds(s: System, id: nat, during: seq<Step>, later: seq<Step>)
    requires Reachable(s) && Quiet(s) && NoAppend(during) && NoPublish(later)
    requires IsRun(Next(s, ReadMemtable(id)), during)
    requires id in After(Next(s, ReadMemtable(id)), during).reading
    requires IsRun(Published(After(Next(s, ReadMemtable(id)), during), id), later)
    ensures var t := After(Published(After(Next(s, ReadMemtable(id)), during), id), later);
            Inv(t) && (Quiet(t) && InKeyOrder(t) ==> Rebuilt(t) == t.mem)
  {
    var c := LockedIsComplete(s, id, during);
    StaysComplete(c, later);
    ReachableAfter(c, later);
    var t := After(c, later);
    ReachableInv(t);
    if Quiet(t) && InKeyOrder(t) {
      CompleteSnapshotRebuilds(t);
    }
  }

  lemma {:induction false} LockedIsComplete(s: System, id: nat, during: seq<Step>) returns (c: System)
    requires Reachable(s) && Quiet(s) && NoAppend(during) && IsRun(Next(s, ReadMemtable(id)), during)
    requires id in After(Next(s, ReadMemtable(id)), during).reading
    ensures c == Published(After(Next(s, ReadMemtable(id)), during), id) && Reachable(c) && Complete(c)
  {
    var a := Next(s, ReadMemtable(id));
    ReachableNext(s, ReadMemtable(id));
    QuietReads(a, during, id);
    ReachableAfter(a, during);
    c := PublishSteps(After(a, during), id);
    WholeSlice(c.applied);
  }

  lemma {:induction false} PublishSteps(s: System, id: nat) returns (t: System)
    requires Reachable(s) && id in s.reading
    ensures t == Published(s, id) && Reachable(t)
  {
    ReachableNext(s, ReadOffset(id));
    ReachableNext(Next(s, ReadOffset(id)), Publish(id));
    t := Published(s, id);
  }

  /** The state once snapshot `id` has read the offset and become the latest. */
  function Published(s: System, id: nat): System
    requires id in s.reading
  {
    Next(Next(s, ReadOffset(id)), Publish(id))
  }

  // ---- what happens without one ----

  /**
   * A write that is appended but not yet applied when the memtable is read, and whose key is not
   * written again, is missing after a restart although it was acknowledged, even if nothing is
   * appended while the snapshot is taken: every reachable quiet state leads to such a state, for
   * every record that changes its key's slot.
   */
  lemma {:induction false} SnapshotRaceLosesWrite(s: System, e: LogEntry, id: nat) returns (t: System)
    requires Reachable(s) && Quiet(s) && Find(s.mem, e.key) != Some(ToEntry(e))
    ensures Reachable(t) && Quiet(t) && t.log == s.log + [e] && t.snap.below == |t.log|
    ensures Find(t.mem, e.key) == Some(ToEntry(e))
    ensures Find(Rebuilt(t), e.key) == Find(s.mem, e.key) != Find(t.mem, e.key)
  {
    ReachableInv(s);
    var n := |s.log|;
    t := AppendStep(s, e);
    ReachableNext(t, ReadMemtable(id));
    t := Next(t, ReadMemtable(id));
    t := ApplyStep(t, n);
    t := PublishSteps(t, id);
    assert t.log[|t.log|..] == [];
  }

  /**
   * Two writers of one key that apply in the opposite order to their appends: the live table shows
   * the one, a restart the other, even if no snapshot interferes.
   */
  lemma {:induction false} OvertakingDiverges(s: System, e: LogEntry, f: LogEntry) returns (t: System)
    requires Reachable(s) && Quiet(s) && e.key == f.key && ToEntry(e) != ToEntry(f)
    ensures Reachable(t) && Quiet(t) && t.log == s.log + [e, f] && t.snap == s.snap && s.snap.below <= |s.log|
    ensures Find(t.mem, e.key) == Some(ToEntry(e))
    ensures Find(Rebuilt(t), e.key) == Some(ToEntry(f)) != Find(t.mem, e.key)
  {
    ReachableInv(s);
    t := Overtaken(s, e, f);
    LastOfTail(t.log, t.snap.below, f);
    LastWriteDecides(t.snap.view.table, t.log[t.snap.below..], e.key);
  }

  lemma {:induction false} Overtaken(s: System, e: LogEntry, f: LogEntry) returns (t: System)
    requires Reachable(s) && Inv(s) && Quiet(s)
    ensures Reachable(t) && Quiet(t) && t.log == s.log + [e, f] && t.snap == s.snap
    ensures t.mem == Applied(Applied(s.mem, f), e)
  {
    var n := |s.log|;
    t := AppendStep(s, e);
    t := AppendStep(t, f);
    t := ApplyStep(t, n + 1);
    t := ApplyStep(t, n);
  }

  lemma {:induction false} LastOfTail(log: seq<LogEntry>, at: nat, f: LogEntry)
    requires at < |log| && log[|log| - 1] == f
    ensures LastWrite(log[at..], f.key) == Some(ToEntry(f))
  {
    var tail := log[at..];
    assert tail[|tail| - 1] == f;
  }

  lemma {:induction false} AppendStep(s: System, e: LogEntry) returns (t: System)
    requires Reachable(s)
    ensures t == Next(s, Append(e)) && Reachable(t)
  {
    ReachableNext(s, Append(e));
    t := Next(s, Append(e));
  }

  lemma {:induction false} ApplyStep(s: System, i: nat) returns (t: System)
    requires Reachable(s) && Enabled(s, Apply(i))
    ensures t == Next(s, Apply(i)) && Reachable(t)
    ensures forall j: nat :: j in t.applied <==> j in s.applied || j == i
  {
    ReachableNext(s, Apply(i));
    t := Next(s, Apply(i));
  }
}
