/** The coordinator: counting acknowledgements, choosing the newest answer, repairing stale replicas. */
module Coordination {
  import opened Common
  import opened Quorums
  import opened Hints
  import opened RingSpec
  import Rings

  // ---- writing ----

  /** How one replica's writer ended, and when, in the order the coordinator hears of it. */
  datatype Arrival = Arrival(replica: string, ok: bool, at: int)

  function Acks(arrivals: seq<Arrival>): nat {
    if arrivals == [] then 0
    else
      var n := |arrivals| - 1;
      Acks(arrivals[..n]) + if arrivals[n].ok then 1 else 0
  }

  lemma {:induction false} AcksGrow(arrivals: seq<Arrival>, i: nat)
    requires i <= |arrivals|
    ensures Acks(arrivals[..i]) <= Acks(arrivals)
  {
    if i < |arrivals| {
      var n := |arrivals| - 1;
      AcksGrow(arrivals[..n], i);
      assert arrivals[..n][..i] == arrivals[..i];
    } else {
      assert arrivals[..i] == arrivals;
    }
  }

  /** The handoff once all writers have finished: a failed remote write leaves a hint. */
  function AfterWriters(s: Handoff, self: string, key: string, value: Bytes, arrivals: seq<Arrival>): Handoff {
    if arrivals == [] then s
    else
      var n := |arrivals| - 1;
      var before := AfterWriters(s, self, key, value, arrivals[..n]);
      var a := arrivals[n];
      if a.replica != self && !a.ok then Stored(before, Hint(a.replica, key, value, a.at)) else before
  }

  /** A replica that does not occur gains no hint. */
  lemma {:induction false} NoArrivalNoHint(s: Handoff, self: string, key: string, value: Bytes,
                                           arrivals: seq<Arrival>, id: string)
    requires forall i :: 0 <= i < |arrivals| ==> arrivals[i].replica != id
    ensures For(AfterWriters(s, self, key, value, arrivals).hints, id) == For(s.hints, id)
  {
    if arrivals == [] {
    } else {
      NoArrivalNoHint(s, self, key, value, arrivals[..|arrivals| - 1], id);
    }
  }

  /** The coordinator's own write never leaves a hint, whether it succeeds or not. */
  lemma {:induction false} SelfGainsNoHint(s: Handoff, self: string, key: string, value: Bytes,
                                           arrivals: seq<Arrival>)
    ensures For(AfterWriters(s, self, key, value, arrivals).hints, self) == For(s.hints, self)
  {
    if arrivals == [] {
    } else {
      SelfGainsNoHint(s, self, key, value, arrivals[..|arrivals| - 1]);
    }
  }

  /** The positions of the acknowledgements. */
  ghost function Acknowledging(arrivals: seq<Arrival>): set<nat> {
    set i: nat | i < |arrivals| && arrivals[i].ok
  }

  lemma {:induction false} AcksAre(arrivals: seq<Arrival>)
    ensures Acks(arrivals) == |Acknowledging(arrivals)|
  {
    if arrivals == [] {
    } else {
      var n := |arrivals| - 1;
      AcksAre(arrivals[..n]);
      var before := Acknowledging(arrivals[..n]);
      assert Acknowledging(arrivals) == if arrivals[n].ok then before + {n} else before;
    }
  }

  /**
   * Once all writers of a Put have finished, every replica but the coordinator itself has either
   * acknowledged and gained no hint, or failed and gained exactly one, behind those it already had.
   */
  lemma {:induction false} AckedOrHinted(s: Handoff, self: string, key: string, value: Bytes, arrivals: seq<Arrival>,
                                         k: nat)
    requires k < |arrivals| && arrivals[k].replica != self
    requires forall i, j :: 0 <= i < j < |arrivals| ==> arrivals[i].replica != arrivals[j].replica
    ensures var a := arrivals[k];
            For(AfterWriters(s, self, key, value, arrivals).hints, a.replica)
            == For(s.hints, a.replica) + if a.ok then [] else [Hint(a.replica, key, value, a.at)]
  {
    var n, id := |arrivals| - 1, arrivals[k].replica;
    if k < n {
      AckedOrHinted(s, self, key, value, arrivals[..n], k);
    } else {
      NoArrivalNoHint(s, self, key, value, arrivals[..n], id);
      assert For(s.hints, id) + [] == For(s.hints, id);
    }
  }

  /** How many arrivals a Put that succeeds waits for: up to the one that completes its quorum. */
  function Heard(arrivals: seq<Arrival>, w: int): (k: nat)
    ensures k <= |arrivals|
  {
    if arrivals == [] then 0
    else
      var n := |arrivals| - 1;
      if Acks(arrivals[..n]) >= w then Heard(arrivals[..n], w) else n + 1
  }

  /** It is exactly the shortest prefix with enough acknowledgements. */
  lemma {:induction false} HeardIs(arrivals: seq<Arrival>, w: int)
    requires w > 0 && Acks(arrivals) >= w
    ensures var k := Heard(arrivals, w);
            k > 0 && Acks(arrivals[..k]) >= w && Acks(arrivals[..k - 1]) < w
  {
    var n := |arrivals| - 1;
    if Acks(arrivals[..n]) >= w {
      HeardIs(arrivals[..n], w);
      var k := Heard(arrivals[..n], w);
      assert arrivals[..n][..k] == arrivals[..k] && arrivals[..n][..k - 1] == arrivals[..k - 1];
    } else {
      assert arrivals[..n + 1] == arrivals;
    }
  }

  lemma {:induction false} HeardAt(arrivals: seq<Arrival>, w: int, k: nat)
    requires k < |arrivals| && Acks(arrivals[..k]) < w <= Acks(arrivals[..k + 1])
    ensures Heard(arrivals, w) == k + 1
  {
    var n := |arrivals| - 1;
    if k == n {
    } else {
      AcksGrow(arrivals[..n], k + 1);
      assert arrivals[..n][..k] == arrivals[..k] && arrivals[..n][..k + 1] == arrivals[..k + 1];
      HeardAt(arrivals[..n], w, k);
    }
  }

  /**
   * The waiting loop of Put: success if and only if at least `w` writers succeed, in whatever order,
   * and then it has heard exactly the shortest prefix with that many.
   */
  method AwaitAcks(arrivals: seq<Arrival>, w: int) returns (ok: bool, heard: nat)
    ensures ok <==> Acks(arrivals) >= w
    ensures ok && w > 0 ==> heard == Heard(arrivals, w)
  {
    var acks := 0;
    for i := 0 to |arrivals|
      invariant acks == Acks(arrivals[..i]) && (w > 0 ==> acks < w)
    {
      assert arrivals[..i + 1][..i] == arrivals[..i];
      if arrivals[i].ok {
        acks := acks + 1;
        if acks >= w {
          AcksGrow(arrivals, i + 1);
          if w > 0 {
            HeardAt(arrivals, w, i);
          }
          return true, i + 1;
        }
      }
    }
    assert arrivals[..|arrivals|] == arrivals;
    ok, heard := acks >= w, |arrivals|;
  }

  /** What a Put returns. */
  function PutResult(level: Level, n: int, arrivals: seq<Arrival>): Result<()> {
    if Acks(arrivals) >= QuorumSize(level, n, |arrivals|) then Ok(()) else Err(InsufficientReplicas)
  }

  /** Put succeeds exactly if as many writers acknowledged as the level asks for, and has one error otherwise. */
  lemma {:induction false} PutDecides(level: Level, n: int, arrivals: seq<Arrival>)
    ensures |Acknowledging(arrivals)| >= QuorumSize(level, n, |arrivals|) ==> PutResult(level, n, arrivals) == Ok(())
    ensures |Acknowledging(arrivals)| < QuorumSize(level, n, |arrivals|) ==>
              PutResult(level, n, arrivals) == Err(InsufficientReplicas)
  {
    AcksAre(arrivals);
  }

  class Coordinator {
    const n: int
    const nodeID: string
    const address: string
    const ring: Rings.Ring
    const hints: HintedHandoff

    constructor (n: int, nodeID: string, address: string, ring: Rings.Ring, hints: HintedHandoff)
      ensures this.n == n && this.nodeID == nodeID && this.address == address
      ensures this.ring == ring && this.hints == hints
    {
      this.n, this.nodeID, this.address := n, nodeID, address;
      this.ring, this.hints := ring, hints;
    }

    /**
     * The replicas of a key: distinct nodes, as many as the replication factor or the cluster allows,
     * the first ones clockwise; the node itself if the ring is empty.
     */
    method GetReplicas(key: string) returns (r: Result<seq<Node>>)
      requires ring.Valid() && Min(n, |ring.nodes|) <= |Distinct(Lap(ring.State(), ring.hashKey(key)))|
      ensures n >= 0 ==> r.Ok? && |r.value| == ReplicaCount(n, |ring.nodes|)
      ensures n >= 1 && ring.nodes != map[] ==>
                && r.Ok? && |r.value| <= n && |r.value| <= |ring.nodes|
                && (|r.value| == n || |r.value| == |ring.nodes|)
      ensures n >= 0 && Min(n, |ring.nodes|) == 0 ==> r == Ok([Node(nodeID, address)])
      ensures r.Ok? && Min(n, |ring.nodes|) != 0 ==> r.value <= Distinct(Lap(ring.State(), ring.hashKey(key)))
      ensures r.Ok? ==> forall i, j :: 0 <= i < j < |r.value| ==> r.value[i].id != r.value[j].id
      ensures r.Err? ==> n < 0 && ring.nodes == map[]
    {
      var count := n;
      var size := ring.Size();
      if size < count {
        count := size;
      }
      if count == 0 {
        return Ok([Node(nodeID, address)]);
      }
      r := ring.GetNSuccessors(key, count);
      DistinctIds(Lap(ring.State(), ring.hashKey(key)));
    }

    /** The writers: each failed remote write stores a hint. */
    method RunWriters(key: string, value: Bytes, arrivals: seq<Arrival>)
      requires hints.Valid()
      modifies hints
      ensures hints.Valid() && hints.State() == AfterWriters(old(hints.State()), nodeID, key, value, arrivals)
    {
      ghost var before := hints.State();
      for i := 0 to |arrivals|
        invariant hints.Valid() && hints.State() == AfterWriters(before, nodeID, key, value, arrivals[..i])
      {
        assert arrivals[..i + 1][..i] == arrivals[..i];
        if arrivals[i].replica != nodeID && !arrivals[i].ok {
          hints.Store(arrivals[i].replica, key, value, arrivals[i].at);
        }
      }
      assert arrivals[..|arrivals|] == arrivals;
    }

    /** Put, seen after its slower writers have finished too. */
    method Put(key: string, value: Bytes, level: Level, arrivals: seq<Arrival>) returns (r: Result<()>)
      requires hints.Valid()
      modifies hints
      ensures hints.Valid() && hints.State() == AfterWriters(old(hints.State()), nodeID, key, value, arrivals)
      ensures r == PutResult(level, n, arrivals)
    {
      var w := QuorumSize(level, n, |arrivals|);
      RunWriters(key, value, arrivals);
      var ok, heard := AwaitAcks(arrivals, w);
      r := if ok then Ok(()) else Err(InsufficientReplicas);
    }
  }

  // ---- reading ----

  datatype RemoteValue = RemoteValue(nodeID: string, data: Bytes, timestamp: Int64, found: bool)

  /** The answers among the results, in arrival order. */
  function Answers(results: seq<Result<RemoteValue>>): seq<RemoteValue> {
    if results == [] then []
    else
      var n := |results| - 1;
      Answers(results[..n]) + if results[n].Ok? then [results[n].value] else []
  }

  /** The error heard last. */
  function LastError(results: seq<Result<RemoteValue>>): Option<Error> {
    if results == [] then None
    else
      var n := |results| - 1;
      if results[n].Err? then Some(results[n].error) else LastError(results[..n])
  }

  function FoundOf(values: seq<RemoteValue>): seq<RemoteValue> {
    Filter(values, (v: RemoteValue) => v.found)
  }

  /** The answer with the largest timestamp, the first heard on ties. */
  function LatestOf(values: seq<RemoteValue>): RemoteValue
    requires values != []
  {
    var n := |values| - 1;
    if n == 0 then values[0]
    else
      var best := LatestOf(values[..n]);
      if values[n].timestamp > best.timestamp then values[n] else best
  }

  lemma {:induction false} LatestIsLargest(values: seq<RemoteValue>) returns (k: nat)
    requires values != []
    ensures k < |values| && values[k] == LatestOf(values)
    ensures forall i :: 0 <= i < |values| ==> values[i].timestamp <= values[k].timestamp
    ensures forall i :: 0 <= i < k ==> values[i].timestamp < values[k].timestamp
  {
    var n := |values| - 1;
    k := n;
    if n == 0 {
    } else {
      var b := LatestIsLargest(values[..n]);
      assert forall i :: 0 <= i < n ==> values[..n][i] == values[i];
      if values[n].timestamp <= values[b].timestamp {
        k := b;
      }
    }
  }

  method FilterFound(values: seq<RemoteValue>) returns (found: seq<RemoteValue>)
    ensures found == FoundOf(values)
  {
    found := [];
    for i := 0 to |values|
      invariant found == FoundOf(values[..i])
    {
      assert values[..i + 1] == values[..i] + [values[i]];
      FilterSnoc(values[..i], values[i], (v: RemoteValue) => v.found);
      if values[i].found {
        found := found + [values[i]];
      }
    }
    assert values[..|values|] == values;
  }

  method LatestValue(values: seq<RemoteValue>) returns (best: RemoteValue)
    requires values != []
    ensures best == LatestOf(values)
  {
    best := values[0];
    assert values[..1] == [values[0]];
    for i := 1 to |values|
      invariant best == LatestOf(values[..i])
    {
      assert values[..i + 1][..i] == values[..i];
      if values[i].timestamp > best.timestamp {
        best := values[i];
      }
    }
    assert values[..|values|] == values;
  }

  /** What Get returns for results heard in this order: nothing found is decided before the quorum is checked. */
  function ReadResult(results: seq<Result<RemoteValue>>, r: int): Result<RemoteValue> {
    var values := Answers(results);
    if FoundOf(values) == [] then
      (match LastError(results) case Some(e) => Err(e) case None => Err(KeyNotFound))
    else if |values| < r then Err(InsufficientReplicas)
    else Ok(LatestOf(FoundOf(values)))
  }

  /** The positions of the results that are answers. */
  ghost function Answering(results: seq<Result<RemoteValue>>): set<nat> {
    set i: nat | i < |results| && results[i].Ok?
  }

  lemma {:induction false} AnswerCount(results: seq<Result<RemoteValue>>)
    ensures |Answers(results)| == |Answering(results)|
  {
    if results == [] {
    } else {
      var n := |results| - 1;
      AnswerCount(results[..n]);
      var before := Answering(results[..n]);
      assert Answering(results) == if results[n].Ok? then before + {n} else before;
    }
  }

  predicate FoundAt(results: seq<Result<RemoteValue>>, i: nat)
    requires i < |results|
  {
    results[i].Ok? && results[i].value.found
  }

  /** `at` lists, in order, the positions of the results that found the key; `found` are their values. */
  ghost predicate FoundPositions(results: seq<Result<RemoteValue>>, found: seq<RemoteValue>, at: seq<nat>) {
    && |at| == |found| && (forall i, j :: 0 <= i < j < |at| ==> at[i] < at[j])
    && (forall k :: 0 <= k < |at| ==> at[k] < |results| && FoundAt(results, at[k]) && results[at[k]].value == found[k])
    && (forall i :: 0 <= i < |results| && FoundAt(results, i) ==> i in at)
  }

  lemma {:induction false} OneMoreResult(results: seq<Result<RemoteValue>>, found: seq<RemoteValue>, at: seq<nat>,
                                         last: Result<RemoteValue>)
    requires FoundPositions(results, found, at)
    ensures last.Ok? && last.value.found ==>
              FoundPositions(results + [last], found + [last.value], at + [|results|])
    ensures !(last.Ok? && last.value.found) ==> FoundPositions(results + [last], found, at)
  {
    var all := results + [last];
    assert forall i :: 0 <= i < |results| ==> all[i] == results[i] && (FoundAt(all, i) <==> FoundAt(results, i));
  }

  lemma {:induction false} FoundAre(results: seq<Result<RemoteValue>>) returns (at: seq<nat>)
    ensures FoundPositions(results, FoundOf(Answers(results)), at)
  {
    if results == [] {
      at := [];
    } else {
      var n := |results| - 1;
      var before, last := results[..n], results[n];
      at := FoundAre(before);
      OneMoreResult(before, FoundOf(Answers(before)), at, last);
      assert results == before + [last];
      if last.Ok? {
        FilterSnoc(Answers(before), last.value, (v: RemoteValue) => v.found);
        assert FoundOf(Answers(before)) + [] == FoundOf(Answers(before));
        if last.value.found {
          at := at + [n];
        }
      } else {
        assert Answers(before) + [] == Answers(before);
      }
    }
  }

  lemma {:induction false} LastErrorIs(results: seq<Result<RemoteValue>>) returns (i: nat)
    ensures LastError(results).None? ==> forall j :: 0 <= j < |results| ==> results[j].Ok?
    ensures LastError(results).Some? ==>
              && i < |results| && results[i] == Err(LastError(results).value)
              && forall j :: i < j < |results| ==> results[j].Ok?
  {
    if results == [] {
      i := 0;
    } else if results[|results| - 1].Err? {
      i := |results| - 1;
    } else {
      i := LastErrorIs(results[..|results| - 1]);
    }
  }

  /** No result found the key. */
  ghost predicate NoneFound(results: seq<Result<RemoteValue>>) {
    forall i :: 0 <= i < |results| ==> !FoundAt(results, i)
  }

  /** Exactly when Get returns which error: the last one heard, not found, or too few answers. */
  lemma {:induction false} GetErrors(results: seq<Result<RemoteValue>>, r: int)
    ensures NoneFound(results) && (exists i :: 0 <= i < |results| && results[i].Err?) ==>
              exists i :: 0 <= i < |results| && results[i].Err? && ReadResult(results, r) == Err(results[i].error)
                       && forall j :: i < j < |results| ==> results[j].Ok?
    ensures NoneFound(results) && (forall i :: 0 <= i < |results| ==> results[i].Ok?) ==>
              ReadResult(results, r) == Err(KeyNotFound)
    ensures !NoneFound(results) && |Answering(results)| < r ==> ReadResult(results, r) == Err(InsufficientReplicas)
    ensures ReadResult(results, r).Ok? <==> !NoneFound(results) && |Answering(results)| >= r
  {
    AnswerCount(results);
    var at := FoundAre(results);
    var found := FoundOf(Answers(results));
    assert found == [] <==> NoneFound(results) by {
      if found != [] {
        assert FoundAt(results, at[0]);
      }
    }
    var i := LastErrorIs(results);
  }

  /** The value a successful Get returns is the newest found, the first heard on ties. */
  lemma {:induction false} GetChooses(results: seq<Result<RemoteValue>>, r: int) returns (i: nat)
    requires ReadResult(results, r).Ok?
    ensures i < |results| && FoundAt(results, i) && results[i] == ReadResult(results, r)
    ensures forall j :: 0 <= j < |results| && FoundAt(results, j) ==>
              results[j].value.timestamp <= results[i].value.timestamp
    ensures forall j :: 0 <= j < i && FoundAt(results, j) ==>
              results[j].value.timestamp < results[i].value.timestamp
  {
    var at := FoundAre(results);
    var found := FoundOf(Answers(results));
    var k := LatestIsLargest(found);
    i := at[k];
    assert results[i] == Ok(found[k]);
    forall j | 0 <= j < |results| && FoundAt(results, j)
      ensures results[j].value.timestamp <= found[k].timestamp
      ensures j < i ==> results[j].value.timestamp < found[k].timestamp
    {
      var m := FoundIndex(results, found, at, j, k);
    }
  }

  lemma {:induction false} FoundIndex(results: seq<Result<RemoteValue>>, found: seq<RemoteValue>, at: seq<nat>, j: nat,
                                      k: nat) returns (m: nat)
    requires FoundPositions(results, found, at) && j < |results| && FoundAt(results, j) && k < |at|
    ensures m < |at| && found[m] == results[j].value && (j < at[k] ==> m < k)
  {
    m :| 0 <= m < |at| && at[m] == j;
    assert k < m ==> at[k] < at[m];
  }

  /** The gathering loop of Get. */
  method Gather(results: seq<Result<RemoteValue>>) returns (values: seq<RemoteValue>, lastErr: Option<Error>)
    ensures values == Answers(results) && lastErr == LastError(results)
  {
    values, lastErr := [], None;
    for i := 0 to |results|
      invariant values == Answers(results[..i]) && lastErr == LastError(results[..i])
    {
      assert results[..i + 1][..i] == results[..i];
      match results[i]
      case Err(e) => lastErr := Some(e);
      case Ok(v) => values := values + [v];
    }
    assert results[..|results|] == results;
  }

  /** The answer is what the replica held. */
  predicate Reports(v: RemoteValue, held: Option<Cell>) {
    match held
    case Some(cell) => v.found && v.data == cell.data && v.timestamp == cell.timestamp
    case None => !v.found
  }

  /** One answer per responder. */
  ghost predicate DistinctResponders(seen: seq<RemoteValue>) {
    forall i, j :: 0 <= i < j < |seen| ==> seen[i].nodeID != seen[j].nodeID
  }

  function Responders(seen: seq<RemoteValue>): set<string> {
    set i | 0 <= i < |seen| :: seen[i].nodeID
  }

  lemma {:induction false} ResponderCount(seen: seq<RemoteValue>)
    requires DistinctResponders(seen)
    ensures |Responders(seen)| == |seen|
  {
    if seen == [] {
    } else {
      var n := |seen| - 1;
      ResponderCount(seen[..n]);
      assert Responders(seen) == Responders(seen[..n]) + {seen[n].nodeID} by {
        forall i | 0 <= i < n ensures seen[i].nodeID in Responders(seen[..n]) {
          assert seen[..n][i].nodeID == seen[i].nodeID;
        }
      }
      assert seen[n].nodeID !in Responders(seen[..n]);
    }
  }

  // ---- the configured quorums ----

  function Name(i: nat): (s: string)
    ensures |s| == i
  {
    seq(i, _ => 'r')
  }

  /** `m` arrivals from different replicas, the first `k` of them acknowledgements. */
  function FirstAck(m: nat, k: nat): (arrivals: seq<Arrival>)
    ensures |arrivals| == m && forall i :: 0 <= i < m ==> arrivals[i] == Arrival(Name(i), i < k, 0)
  {
    seq(m, i requires 0 <= i < m => Arrival(Name(i), i < k, 0))
  }

  lemma {:induction false} FirstAckCount(m: nat, k: nat)
    ensures Acks(FirstAck(m, k)) == if k < m then k else m
    decreases m
  {
    if m == 0 {
    } else {
      FirstAckCount(m - 1, k);
      assert FirstAck(m, k)[..m - 1] == FirstAck(m - 1, k);
    }
  }

  /**
   * The configured number of write acknowledgements is kept by every Put that returns Ok if and only
   * if the level alone asks for as many; otherwise a Put with just its quorum returns Ok.
   */
  lemma {:induction false} PutHasWAcksIff(level: Level, n: int, m: nat, w: int)
    requires 1 <= m <= n
    ensures (forall arrivals: seq<Arrival> ::
              |arrivals| == m && DistinctArrivals(arrivals) && PutResult(level, n, arrivals) == Ok(()) ==>
                Acks(arrivals) >= w)
       <==> QuorumSize(level, n, m) >= w
  {
    var q := QuorumSize(level, n, m);
    if q < w {
      var arrivals := FirstAck(m, q);
      FirstAckCount(m, q);
      assert DistinctArrivals(arrivals) by {
        assert forall i :: 0 <= i < m ==> |arrivals[i].replica| == i;
      }
      assert PutResult(level, n, arrivals) == Ok(()) && Acks(arrivals) < w;
    }
  }

  /** `m` results, the first `k` of them the answer `v`. */
  function FirstAnswer(m: nat, k: nat, v: RemoteValue): (results: seq<Result<RemoteValue>>)
    ensures |results| == m
    ensures forall i :: 0 <= i < m ==> results[i] == if i < k then Ok(v) else Err(ReplicaFailed)
  {
    seq(m, i requires 0 <= i < m => if i < k then Ok(v) else Err(ReplicaFailed))
  }

  lemma {:induction false} FirstAnswerCount(m: nat, k: nat, v: RemoteValue)
    ensures |Answers(FirstAnswer(m, k, v))| == if k < m then k else m
    ensures forall x :: x in Answers(FirstAnswer(m, k, v)) ==> x == v
    decreases m
  {
    if m == 0 {
    } else {
      FirstAnswerCount(m - 1, k, v);
      assert FirstAnswer(m, k, v)[..m - 1] == FirstAnswer(m - 1, k, v);
    }
  }

  /** The same for the answers a successful Get has heard. */
  lemma {:induction false} GetHasRAnswersIff(level: Level, n: int, m: nat, r: int)
    requires 1 <= m <= n
    ensures (forall results: seq<Result<RemoteValue>> ::
              |results| == m && ReadResult(results, QuorumSize(level, n, m)).Ok? ==> |Answers(results)| >= r)
       <==> QuorumSize(level, n, m) >= r
  {
    var q := QuorumSize(level, n, m);
    if q < r {
      var v := RemoteValue("", [], 0, true);
      var results := FirstAnswer(m, q, v);
      FirstAnswerCount(m, q, v);
      var values := Answers(results);
      assert values[0] in values;
      NewestFound(values, 0);
      assert ReadResult(results, q).Ok? && |Answers(results)| < r;
    }
  }

  // ---- a read after a write ----

  /** The answers come from different replicas, each reporting what it held when it was read. */
  ghost predicate AnswersFrom(values: seq<RemoteValue>, run: History, readAt: map<string, nat>) {
    && DistinctResponders(values) && readAt.Keys == Responders(values)
    && (forall i :: 0 <= i < |values| ==>
         var id := values[i].nodeID;
         id in readAt && readAt[id] <= |run| && Reports(values[i], HeldAt(run, readAt[id], id)))
  }

  ghost predicate DistinctArrivals(arrivals: seq<Arrival>) {
    forall i, j :: 0 <= i < j < |arrivals| ==> arrivals[i].replica != arrivals[j].replica
  }

  function ReplicasOf(arrivals: seq<Arrival>): set<string> {
    set i | 0 <= i < |arrivals| :: arrivals[i].replica
  }

  /** Each acknowledgement stands for a write of the value that took effect at the replica before. */
  ghost predicate AcksAreWrites(run: History, arrivals: seq<Arrival>, storedAt: seq<nat>, value: Bytes, returned: nat)
  {
    |storedAt| >= |arrivals| && forall k :: 0 <= k < |arrivals| && arrivals[k].ok ==>
      && storedAt[k] < returned <= |run| && run[storedAt[k]].Wrote?
      && run[storedAt[k]].replica == arrivals[k].replica && run[storedAt[k]].cell.data == value
  }

  /** Acknowledgements from different replicas, as a map. */
  lemma {:induction false} AckMap(arrivals: seq<Arrival>, storedAt: seq<nat>) returns (acks: map<string, nat>)
    requires DistinctArrivals(arrivals) && |arrivals| <= |storedAt|
    ensures |acks| == Acks(arrivals)
    ensures forall r :: r in acks ==>
              exists k :: 0 <= k < |arrivals| && arrivals[k].ok && arrivals[k].replica == r && acks[r] == storedAt[k]
  {
    if arrivals == [] {
      acks := map[];
    } else {
      var n := |arrivals| - 1;
      var before := AckMap(arrivals[..n], storedAt);
      forall r | r in before
        ensures exists k :: 0 <= k < n && arrivals[k].ok && arrivals[k].replica == r && before[r] == storedAt[k]
      {
        var k :| 0 <= k < |arrivals[..n]| && arrivals[..n][k].ok && arrivals[..n][k].replica == r
              && before[r] == storedAt[k];
        assert arrivals[k] == arrivals[..n][k];
      }
      if arrivals[n].ok {
        assert arrivals[n].replica !in before;
        acks := before[arrivals[n].replica := storedAt[n]];
      } else {
        acks := before;
      }
    }
  }

  lemma {:induction false} ArrivalCount(arrivals: seq<Arrival>)
    requires DistinctArrivals(arrivals)
    ensures |ReplicasOf(arrivals)| == |arrivals|
  {
    if arrivals == [] {
    } else {
      var n := |arrivals| - 1;
      ArrivalCount(arrivals[..n]);
      assert ReplicasOf(arrivals) == ReplicasOf(arrivals[..n]) + {arrivals[n].replica} by {
        forall i | 0 <= i < n ensures arrivals[i].replica in ReplicasOf(arrivals[..n]) {
          assert arrivals[..n][i].replica == arrivals[i].replica;
        }
      }
      assert arrivals[n].replica !in ReplicasOf(arrivals[..n]);
    }
  }

  /** What the arrivals up to Put's return say about the history, and when a later read sees it. */
  ghost predicate NothingErased(run: History, arrivals: seq<Arrival>, storedAt: seq<nat>, readAt: map<string, nat>) {
    |storedAt| >= |arrivals| && forall k :: 0 <= k < |arrivals| && arrivals[k].ok && arrivals[k].replica in readAt ==>
      NotErased(run, arrivals[k].replica, storedAt[k], readAt[arrivals[k].replica])
  }

  ghost predicate StampedFrom(run: History, arrivals: seq<Arrival>, storedAt: seq<nat>, least: Int64) {
    |storedAt| >= |arrivals| && forall k :: 0 <= k < |arrivals| && arrivals[k].ok ==>
      storedAt[k] < |run| && run[storedAt[k]].Wrote? && least <= run[storedAt[k]].cell.timestamp
  }

  /** Some answer comes from a replica that had acknowledged, and is at least as new as what it stored. */
  lemma {:induction false} SomeAnswerIsNew(run: History, arrivals: seq<Arrival>, storedAt: seq<nat>, value: Bytes,
                                           returned: nat, values: seq<RemoteValue>, readAt: map<string, nat>,
                                           replicas: set<string>, least: Int64)
    returns (i: nat)
    requires DistinctArrivals(arrivals) && ReplicasOf(arrivals) <= replicas && readAt.Keys <= replicas
    requires Acks(arrivals) + |values| > |replicas|
    requires ClocksMonotone(run) && AcksAreWrites(run, arrivals, storedAt, value, returned)
    requires AnswersFrom(values, run, readAt) && ReadAfter(run, readAt, returned)
    requires NothingErased(run, arrivals, storedAt, readAt) && StampedFrom(run, arrivals, storedAt, least)
    ensures i < |values| && values[i].found && values[i].timestamp >= least
  {
    var acks := AckMap(arrivals, storedAt);
    ResponderCount(values);
    forall x | x in acks ensures x in replicas && least <= run[acks[x]].cell.timestamp {
      var k :| 0 <= k < |arrivals| && arrivals[k].ok && arrivals[k].replica == x && acks[x] == storedAt[k];
      assert x in ReplicasOf(arrivals);
    }
    var r := ReadHearsWriter(run, acks, readAt, value, returned, replicas);
    i :| 0 <= i < |values| && values[i].nodeID == r;
  }

  /**
   * A Get after a Put that returned Ok, at levels whose quorums exceed the replicas together: if it
   * gets its quorum of answers it succeeds, and its timestamp is no smaller than the least one stored
   * by the replicas whose acknowledgements the Put had heard. Replicas may be read at different times
   * and other writes may be in flight, but the replicas heard twice must not have deleted the key in
   * between.
   */
  lemma {:induction false} GetSeesPut(run: History, arrivals: seq<Arrival>, storedAt: seq<nat>, value: Bytes,
                                      returned: nat, put: Level, get: Level, n: int,
                                      results: seq<Result<RemoteValue>>, readAt: map<string, nat>, least: Int64)
    requires DistinctArrivals(arrivals) && 1 <= |arrivals| <= n && |results| == |arrivals|
    requires QuorumSize(put, n, |arrivals|) + QuorumSize(get, n, |arrivals|) > |arrivals|
    requires PutResult(put, n, arrivals) == Ok(())
    requires var heard := arrivals[..Heard(arrivals, QuorumSize(put, n, |arrivals|))];
             && AcksAreWrites(run, heard, storedAt, value, returned)
             && NothingErased(run, heard, storedAt, readAt) && StampedFrom(run, heard, storedAt, least)
    requires ClocksMonotone(run) && ReadAfter(run, readAt, returned) && readAt.Keys <= ReplicasOf(arrivals)
    requires AnswersFrom(Answers(results), run, readAt) && |Answers(results)| >= QuorumSize(get, n, |arrivals|)
    ensures ReadResult(results, QuorumSize(get, n, |arrivals|)).Ok?
    ensures ReadResult(results, QuorumSize(get, n, |arrivals|)).value.timestamp >= least
  {
    var w, values := QuorumSize(put, n, |arrivals|), Answers(results);
    HeardIs(arrivals, w);
    var heard := arrivals[..Heard(arrivals, w)];
    ArrivalCount(arrivals);
    assert ReplicasOf(heard) <= ReplicasOf(arrivals);
    var i := SomeAnswerIsNew(run, heard, storedAt, value, returned, values, readAt, ReplicasOf(arrivals), least);
    NewestFound(values, i);
  }

  /** The chosen value is at least as new as any that was found. */
  lemma {:induction false} NewestFound(values: seq<RemoteValue>, i: nat)
    requires i < |values| && values[i].found
    ensures FoundOf(values) != [] && LatestOf(FoundOf(values)).timestamp >= values[i].timestamp
  {
    FilterMember(values, (v: RemoteValue) => v.found, values[i]);
    var found := FoundOf(values);
    assert values[i] in found;
    var k := LatestIsLargest(found);
    var j :| 0 <= j < |found| && found[j] == values[i];
  }

  // ---- read repair ----

  /** What has happened to one key at the replicas. */
  class Cluster {
    var run: History
  }

  /** The last answer of each replica. */
  function SeenByNode(seen: seq<RemoteValue>): map<string, RemoteValue> {
    if seen == [] then map[]
    else
      var n := |seen| - 1;
      SeenByNode(seen[..n])[seen[n].nodeID := seen[n]]
  }

  /** A responder that lacks the key or holds an older value. */
  predicate Stale(byNode: map<string, RemoteValue>, latest: RemoteValue, id: string) {
    id in byNode && !(byNode[id].found && byNode[id].timestamp >= latest.timestamp)
  }

  /** The writes of a repair, in order; each repaired replica stamps the value with its own clock. */
  function RepairWrites(replicas: seq<string>, byNode: map<string, RemoteValue>, latest: RemoteValue,
                        accepts: string -> bool, stamp: string -> Int64): History
  {
    if replicas == [] then []
    else
      var n := |replicas| - 1;
      var before, id := RepairWrites(replicas[..n], byNode, latest, accepts, stamp), replicas[n];
      if Stale(byNode, latest, id) && accepts(id) then before + [Wrote(id, Cell(latest.data, stamp(id)))] else before
  }

  method ReadRepair(cluster: Cluster, latest: RemoteValue, replicas: seq<string>, seen: seq<RemoteValue>,
                    accepts: string -> bool, stamp: string -> Int64)
    modifies cluster
    ensures cluster.run == old(cluster.run) + RepairWrites(replicas, SeenByNode(seen), latest, accepts, stamp)
  {
    var byNode: map<string, RemoteValue> := map[];
    for i := 0 to |seen|
      invariant byNode == SeenByNode(seen[..i])
    {
      assert seen[..i + 1][..i] == seen[..i];
      byNode := byNode[seen[i].nodeID := seen[i]];
    }
    assert seen[..|seen|] == seen;
    for i := 0 to |replicas|
      invariant cluster.run == old(cluster.run) + RepairWrites(replicas[..i], byNode, latest, accepts, stamp)
    {
      var id := replicas[i];
      assert replicas[..i + 1][..i] == replicas[..i];
      if id !in byNode || (byNode[id].found && byNode[id].timestamp >= latest.timestamp) {
        continue;
      }
      if accepts(id) {
        cluster.run := cluster.run + [Wrote(id, Cell(latest.data, stamp(id)))];
      }
    }
    assert replicas[..|replicas|] == replicas;
  }

  /** The history after a Get: a successful one repairs the replicas it heard from. */
  function AfterGet(run: History, replicas: seq<string>, results: seq<Result<RemoteValue>>, r: int,
                    accepts: string -> bool, stamp: string -> Int64): History
  {
    match ReadResult(results, r)
    case Ok(latest) => run + RepairWrites(replicas, SeenByNode(Answers(results)), latest, accepts, stamp)
    case Err(_) => run
  }

  /** Get, seen after the repair it starts: gathers every reply, then picks the newest value found. */
  method Get(cluster: Cluster, replicas: seq<string>, results: seq<Result<RemoteValue>>, level: Level, n: int,
             accepts: string -> bool, stamp: string -> Int64) returns (r: Result<RemoteValue>)
    modifies cluster
    ensures r == ReadResult(results, QuorumSize(level, n, |results|))
    ensures cluster.run
         == AfterGet(old(cluster.run), replicas, results, QuorumSize(level, n, |results|), accepts, stamp)
  {
    var values, lastErr := Gather(results);
    var found := FilterFound(values);
    if |found| == 0 {
      return match lastErr case Some(e) => Err(e) case None => Err(KeyNotFound);
    }
    if |values| < QuorumSize(level, n, |results|) {
      return Err(InsufficientReplicas);
    }
    var latest := LatestValue(found);
    ReadRepair(cluster, latest, replicas, values, accepts, stamp);
    return Ok(latest);
  }

  /** `id` is written exactly if it is a stale responder on the list and accepts the write. */
  predicate IsRepaired(replicas: seq<string>, byNode: map<string, RemoteValue>, latest: RemoteValue,
                       accepts: string -> bool, id: string)
  {
    id in replicas && Stale(byNode, latest, id) && accepts(id)
  }

  /** What each replica holds after a repair. */
  lemma {:induction false} RepairedCell(run: History, replicas: seq<string>, byNode: map<string, RemoteValue>,
                                        latest: RemoteValue, accepts: string -> bool, stamp: string -> Int64,
                                        id: string)
    ensures Held(run + RepairWrites(replicas, byNode, latest, accepts, stamp), id)
         == if IsRepaired(replicas, byNode, latest, accepts, id) then Some(Cell(latest.data, stamp(id)))
            else Held(run, id)
  {
    if replicas == [] {
      assert run + [] == run;
    } else {
      var n := |replicas| - 1;
      var before := RepairWrites(replicas[..n], byNode, latest, accepts, stamp);
      RepairedCell(run, replicas[..n], byNode, latest, accepts, stamp, id);
      var x := replicas[n];
      if Stale(byNode, latest, x) && accepts(x) {
        var e := Wrote(x, Cell(latest.data, stamp(x)));
        HeldSnoc(run + before, e, id);
        assert run + before + [e] == run + (before + [e]);
      }
    }
  }

  lemma {:induction false} SeenByNodeIs(seen: seq<RemoteValue>, k: nat)
    requires DistinctResponders(seen) && k < |seen|
    ensures seen[k].nodeID in SeenByNode(seen) && SeenByNode(seen)[seen[k].nodeID] == seen[k]
  {
    var n := |seen| - 1;
    if k == n {
    } else {
      SeenByNodeIs(seen[..n], k);
    }
  }

  lemma {:induction false} SeenByNodeOnly(seen: seq<RemoteValue>, id: string)
    ensures id in SeenByNode(seen) <==> id in Responders(seen)
  {
    if seen == [] {
    } else {
      var n := |seen| - 1;
      SeenByNodeOnly(seen[..n], id);
      assert forall k :: 0 <= k < n ==> seen[..n][k].nodeID == seen[k].nodeID;
      assert seen[n].nodeID in Responders(seen);
    }
  }

  /** Each answer reports what its replica holds. */
  ghost predicate Reported(run: History, seen: seq<RemoteValue>) {
    forall k :: 0 <= k < |seen| ==> Reports(seen[k], Held(run, seen[k].nodeID))
  }

  /**
   * After a repair in which no write fails, all responders hold the chosen data if and only if the
   * answers tied at the largest timestamp agreed on the data.
   */
  lemma {:induction false} RepairConvergesIff(run: History, replicas: seq<string>, seen: seq<RemoteValue>,
      latest: RemoteValue, accepts: string -> bool, stamp: string -> Int64)
    requires DistinctResponders(seen) && Reported(run, seen)
    requires FoundOf(seen) != [] && latest == LatestOf(FoundOf(seen))
    requires forall k :: 0 <= k < |seen| ==> seen[k].nodeID in replicas && accepts(seen[k].nodeID)
    ensures var after := run + RepairWrites(replicas, SeenByNode(seen), latest, accepts, stamp);
            (forall k :: 0 <= k < |seen| ==>
              Held(after, seen[k].nodeID).Some? && Held(after, seen[k].nodeID).value.data == latest.data)
            <==> (forall k :: 0 <= k < |seen| && Tied(seen[k], latest) ==> seen[k].data == latest.data)
  {
    var after := run + RepairWrites(replicas, SeenByNode(seen), latest, accepts, stamp);
    forall k | 0 <= k < |seen|
      ensures Held(after, seen[k].nodeID).Some?
      ensures Held(after, seen[k].nodeID).value.data == if Tied(seen[k], latest) then seen[k].data else latest.data
    {
      RepairedResponder(run, replicas, seen, latest, accepts, stamp, k);
    }
  }

  predicate Tied(v: RemoteValue, latest: RemoteValue) {
    v.found && v.timestamp == latest.timestamp
  }

  /** What one responder holds afterwards. */
  lemma {:induction false} RepairedResponder(run: History, replicas: seq<string>, seen: seq<RemoteValue>,
      latest: RemoteValue, accepts: string -> bool, stamp: string -> Int64, k: nat)
    requires DistinctResponders(seen) && Reported(run, seen)
    requires FoundOf(seen) != [] && latest == LatestOf(FoundOf(seen))
    requires k < |seen| && seen[k].nodeID in replicas && accepts(seen[k].nodeID)
    ensures var held := Held(run + RepairWrites(replicas, SeenByNode(seen), latest, accepts, stamp), seen[k].nodeID);
            held.Some? && held.value.data == if Tied(seen[k], latest) then seen[k].data else latest.data
  {
    SeenByNodeIs(seen, k);
    RepairedCell(run, replicas, SeenByNode(seen), latest, accepts, stamp, seen[k].nodeID);
    if seen[k].found {
      NewestFound(seen, k);
    }
  }

  /** A replica that did not answer is never written. */
  lemma {:induction false} SilentReplicaUntouched(run: History, replicas: seq<string>, seen: seq<RemoteValue>,
      latest: RemoteValue, accepts: string -> bool, stamp: string -> Int64, id: string)
    requires id !in Responders(seen)
    ensures Held(run + RepairWrites(replicas, SeenByNode(seen), latest, accepts, stamp), id) == Held(run, id)
  {
    SeenByNodeOnly(seen, id);
    RepairedCell(run, replicas, SeenByNode(seen), latest, accepts, stamp, id);
  }

  // ---- deletes ----

  /** The value a successful Get chose is one that some responder holds. */
  lemma {:induction false} ChosenIsHeld(run: History, results: seq<Result<RemoteValue>>, r: int)
    requires Reported(run, Answers(results)) && ReadResult(results, r).Ok?
    ensures var latest := ReadResult(results, r).value;
            && latest.nodeID in Responders(Answers(results))
            && Held(run, latest.nodeID) == Some(Cell(latest.data, latest.timestamp))
  {
    var values := Answers(results);
    var k := LatestIsLargest(FoundOf(values));
    FilterMember(values, (v: RemoteValue) => v.found, FoundOf(values)[k]);
    var i :| 0 <= i < |values| && values[i] == FoundOf(values)[k];
    assert Reports(values[i], Held(run, values[i].nodeID));
  }

  /**
   * A replica that deleted the key, and a Get. The key stays deleted there if and only if the replica
   * did not answer, or no answer found the key, or the Get had too few answers (then nothing is
   * repaired), or the repair write failed. Otherwise the replica ends up with the data of a responder
   * that had not deleted the key.
   */
  lemma {:induction false} DeletedStaysIff(run: History, erased: nat, replicas: seq<string>,
                                           results: seq<Result<RemoteValue>>, r: int, accepts: string -> bool,
                                           stamp: string -> Int64, id: string)
    requires erased < |run| && run[erased] == Erased(id) && NotWritten(run, id, erased) && id in replicas
    requires DistinctResponders(Answers(results)) && Reported(run, Answers(results))
    ensures var held := Held(AfterGet(run, replicas, results, r, accepts, stamp), id);
            && (held == None <==>
                 || id !in Responders(Answers(results)) || FoundOf(Answers(results)) == []
                 || |Answers(results)| < r || !accepts(id))
            && (held != None ==>
                 var latest := ReadResult(results, r).value;
                 && held == Some(Cell(latest.data, stamp(id))) && latest.nodeID != id
                 && Held(run, latest.nodeID) == Some(Cell(latest.data, latest.timestamp)))
  {
    var values := Answers(results);
    NothingAfterErase(run, id, erased, |run|);
    if ReadResult(results, r).Ok? {
      var latest := ReadResult(results, r).value;
      ChosenIsHeld(run, results, r);
      RepairedCell(run, replicas, SeenByNode(values), latest, accepts, stamp, id);
      SeenByNodeOnly(values, id);
      if id in Responders(values) {
        var k :| 0 <= k < |values| && values[k].nodeID == id;
        SeenByNodeIs(values, k);
        assert Reports(values[k], Held(run, id));
      }
    }
  }
}
