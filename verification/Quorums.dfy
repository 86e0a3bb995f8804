/** Quorum sizes, when two quorums must overlap, and what a quorum read sees of an earlier quorum write. */
module Quorums {
  import opened Common

  datatype Level = One | Quorum | All

  /** quorumSizeFor: the configured replication factor `n`, capped by the replicas available. */
  function QuorumSize(level: Level, n: int, available: nat): int {
    var capped := if available < n then available else n;
    var size := if capped == 0 then 1 else capped;
    match level
    case One => 1
    case All => size
    case Quorum => (if size >= 0 then size / 2 else -((-size) / 2)) + 1
  }

  /** How many replicas getReplicas returns on a ring of `ringSize` members: at least the local node. */
  function ReplicaCount(n: int, ringSize: nat): int {
    var count := if ringSize < n then ringSize else n;
    if count == 0 then 1 else count
  }

  /** The replicas are as many as the factor asks for or the ring has, whichever is less; one without a ring. */
  lemma {:induction false} ReplicaCountIs(n: int, ringSize: nat)
    requires n >= 1
    ensures ringSize == 0 ==> ReplicaCount(n, ringSize) == 1
    ensures ringSize > 0 ==>
              && ReplicaCount(n, ringSize) <= n && ReplicaCount(n, ringSize) <= ringSize
              && (ReplicaCount(n, ringSize) == n || ReplicaCount(n, ringSize) == ringSize)
  {
  }

  /** On the replicas a coordinator uses, a quorum is a strict majority of them and All is all of them. */
  lemma {:induction false} QuorumIsMajority(n: int, ringSize: nat)
    requires n >= 1
    ensures var m := ReplicaCount(n, ringSize);
            && 1 <= m <= n && QuorumSize(All, n, m) == m && QuorumSize(One, n, m) == 1
            && 2 * QuorumSize(Quorum, n, m) > m >= QuorumSize(Quorum, n, m) && 2 * (QuorumSize(Quorum, n, m) - 1) <= m
  {
  }

  // ---- sets of replicas ----

  /** Two sets too large to fit side by side share a member. */
  lemma {:induction false} Overlap(a: set<string>, b: set<string>, all: set<string>)
    requires a <= all && b <= all && |a| + |b| > |all|
    ensures a * b != {}
  {
    SubsetSize(a + b, all);
    assert a * b == {} ==> |a + b| == |a| + |b|;
  }

  lemma {:induction false} SomeOf(all: set<string>, k: nat) returns (a: set<string>)
    requires k <= |all|
    ensures a <= all && |a| == k
  {
    if k == 0 {
      a := {};
    } else {
      var x :| x in all;
      a := SomeOf(all - {x}, k - 1);
      a := a + {x};
    }
  }

  lemma {:induction false} SideBySide(w: nat, r: nat, all: set<string>) returns (a: set<string>, b: set<string>)
    requires w + r <= |all|
    ensures a <= all && b <= all && |a| == w && |b| == r && a * b == {}
  {
    a := SomeOf(all, w);
    assert |all - a| == |all| - |a|;
    b := SomeOf(all - a, r);
  }

  ghost predicate AlwaysOverlap(w: nat, r: nat, all: set<string>) {
    forall a: set<string>, b: set<string> :: a <= all && b <= all && |a| >= w && |b| >= r ==> a * b != {}
  }

  /** For sizes that fit, every write set meets every read set if and only if together they exceed the replicas. */
  lemma {:induction false} AlwaysOverlapIff(w: nat, r: nat, all: set<string>)
    requires w <= |all| && r <= |all|
    ensures AlwaysOverlap(w, r, all) <==> w + r > |all|
  {
    if w + r > |all| {
      forall a: set<string>, b: set<string> | a <= all && b <= all && |a| >= w && |b| >= r ensures a * b != {} {
        Overlap(a, b, all);
      }
    } else {
      var a, b := SideBySide(w, r, all);
      assert !AlwaysOverlap(w, r, all);
    }
  }

  /**
   * Which pairs of consistency levels always overlap on a set of replicas no larger than the
   * replication factor: all pairs without One, all pairs with All, and small clusters.
   */
  lemma {:induction false} LevelsOverlapIff(put: Level, get: Level, n: int, all: set<string>)
    requires 1 <= |all| <= n
    ensures AlwaysOverlap(QuorumSize(put, n, |all|), QuorumSize(get, n, |all|), all)
       <==> || (put != One && get != One) || put == All || get == All
            || |all| == 1 || (|all| == 2 && !(put == One && get == One))
  {
    AlwaysOverlapIff(QuorumSize(put, n, |all|), QuorumSize(get, n, |all|), all);
  }

  // ---- replicas over time ----

  datatype Cell = Cell(data: Bytes, timestamp: Int64)

  /** What happens to one key at the replicas, in the order it takes effect. */
  datatype Event = Wrote(replica: string, cell: Cell) | Erased(replica: string)

  type History = seq<Event>

  /** What replica `r` holds after the first `i` events; a tombstone reads as nothing. */
  function HeldAt(run: History, i: nat, r: string): Option<Cell>
    requires i <= |run|
  {
    if i == 0 then None
    else match run[i - 1]
      case Wrote(x, cell) => if x == r then Some(cell) else HeldAt(run, i - 1, r)
      case Erased(x) => if x == r then None else HeldAt(run, i - 1, r)
  }

  /** Each replica stamps its writes with a clock that does not go back. */
  ghost predicate ClocksMonotone(run: History) {
    forall i, j :: 0 <= i < j < |run| && run[i].Wrote? && run[j].Wrote? && run[i].replica == run[j].replica ==>
      run[i].cell.timestamp <= run[j].cell.timestamp
  }

  ghost predicate NotErased(run: History, r: string, from: nat, to: nat) {
    forall i :: from <= i < to && i < |run| ==> run[i] != Erased(r)
  }

  /** A replica that stored a value and never erased it holds one at least as new. */
  lemma {:induction false} HeldAfterStore(run: History, r: string, stored: nat, at: nat)
    requires ClocksMonotone(run) && stored < at <= |run| && run[stored].Wrote? && run[stored].replica == r
    requires NotErased(run, r, stored, at)
    ensures HeldAt(run, at, r).Some? && HeldAt(run, at, r).value.timestamp >= run[stored].cell.timestamp
  {
    if at - 1 != stored && run[at - 1].replica != r {
      HeldAfterStore(run, r, stored, at - 1);
    }
  }

  /** The acknowledgements a Put had when it returned: where each acknowledging replica stored the value. */
  ghost predicate Acknowledged(run: History, acks: map<string, nat>, value: Bytes, returned: nat) {
    forall r :: r in acks ==>
      && acks[r] < returned <= |run|
      && run[acks[r]].Wrote? && run[acks[r]].replica == r && run[acks[r]].cell.data == value
  }

  /** The replies of a Get issued after the Put returned: when each responding replica read its state. */
  ghost predicate ReadAfter(run: History, readAt: map<string, nat>, returned: nat) {
    forall r :: r in readAt ==> returned <= readAt[r] <= |run|
  }

  /**
   * If the acknowledging and the responding replicas together exceed all replicas, then for any
   * interleaving, and replicas read at different times: the Get hears from a replica that
   * acknowledged the Put, and that replica answers with a timestamp no smaller than the one it stored
   * then.
   */
  lemma {:induction false} ReadHearsWriter(run: History, acks: map<string, nat>, readAt: map<string, nat>,
                                           value: Bytes, returned: nat, replicas: set<string>) returns (r: string)
    requires acks.Keys <= replicas && readAt.Keys <= replicas && |acks| + |readAt| > |replicas|
    requires ClocksMonotone(run) && Acknowledged(run, acks, value, returned) && ReadAfter(run, readAt, returned)
    requires forall x :: x in acks && x in readAt ==> NotErased(run, x, acks[x], readAt[x])
    ensures r in acks && r in readAt && HeldAt(run, readAt[r], r).Some?
    ensures HeldAt(run, readAt[r], r).value.timestamp >= run[acks[r]].cell.timestamp
  {
    Overlap(acks.Keys, readAt.Keys, replicas);
    r :| r in acks.Keys * readAt.Keys;
    HeldAfterStore(run, r, acks[r], readAt[r]);
  }

  // ---- what a replica holds in the end ----

  /** What `r` holds after the whole history. */
  function Held(run: History, r: string): Option<Cell> {
    HeldAt(run, |run|, r)
  }

  lemma {:induction false} HeldAtPrefix(run: History, more: History, i: nat, r: string)
    requires i <= |run|
    ensures HeldAt(run + more, i, r) == HeldAt(run, i, r)
    decreases i
  {
    if i == 0 {
    } else {
      HeldAtPrefix(run, more, i - 1, r);
    }
  }

  /** Only an event at the replica itself changes what it holds. */
  lemma {:induction false} HeldSnoc(run: History, e: Event, r: string)
    ensures Held(run + [e], r)
         == if e.replica != r then Held(run, r) else if e.Wrote? then Some(e.cell) else None
  {
    HeldAtPrefix(run, [e], |run|, r);
  }

  ghost predicate NotWritten(run: History, r: string, from: nat) {
    forall i :: from <= i < |run| ==> run[i].Erased? || run[i].replica != r
  }

  /** A replica that erased the key and did not write it again holds nothing. */
  lemma {:induction false} NothingAfterErase(run: History, r: string, erased: nat, i: nat)
    requires erased < i <= |run| && run[erased] == Erased(r) && NotWritten(run, r, erased)
    ensures HeldAt(run, i, r) == None
    decreases i
  {
    if i == erased + 1 || run[i - 1].replica == r {
    } else {
      NothingAfterErase(run, r, erased, i - 1);
    }
  }
}
