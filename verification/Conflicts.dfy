/** Conflict detection: the versions no other version supersedes, and the one that wins among them. */
module Conflicts {
  import opened Common
  import opened VectorClocks

  /** Versions are compared by identity when siblings are collected, so they are objects. */
  class VersionedValue {
    const data: Bytes
    const clock: Clock
    const timestamp: Int64
    const nodeID: string

    constructor (data: Bytes, nodeID: string, clock: Clock, now: Int64)
      ensures this.data == data && this.nodeID == nodeID && this.timestamp == now
      ensures this.clock == Incremented(clock, nodeID)
    {
      this.data, this.nodeID, this.timestamp := data, nodeID, now;
      var next := Increment(clock, nodeID);
      this.clock := next;
    }
  }

  type Versions = seq<VersionedValue>

  ghost predicate Supersedes(vs: Versions, j: nat, i: nat)
    requires i < |vs| && j < |vs|
  {
    Relation(vs[i].clock, vs[j].clock) == Before
  }

  /** Some other version supersedes the i-th. */
  ghost predicate Dominated(vs: Versions, i: nat)
    requires i < |vs|
  {
    exists j :: 0 <= j < |vs| && Supersedes(vs, j, i)
  }

  /** The undominated versions among the first `k`, in list order. */
  ghost function HeadsUpTo(vs: Versions, k: nat): Versions
    requires k <= |vs|
  {
    if k == 0 then []
    else if Dominated(vs, k - 1) then HeadsUpTo(vs, k - 1)
    else HeadsUpTo(vs, k - 1) + [vs[k - 1]]
  }

  ghost function Heads(vs: Versions): Versions {
    HeadsUpTo(vs, |vs|)
  }

  /** The version with the largest timestamp, the earliest listed on ties. */
  function Newest(vs: Versions): VersionedValue
    requires vs != []
  {
    var n := |vs| - 1;
    if n == 0 then vs[0]
    else
      var best := Newest(vs[..n]);
      if vs[n].timestamp > best.timestamp then vs[n] else best
  }

  function Others(vs: Versions, winner: VersionedValue): Versions {
    Filter(vs, (v: VersionedValue) => v != winner)
  }

  // ---- the code ----

  method LwwResolve(versions: Versions) returns (best: VersionedValue)
    requires versions != []
    ensures best == Newest(versions)
  {
    best := versions[0];
    assert versions[..1] == [versions[0]];
    for i := 1 to |versions|
      invariant best == Newest(versions[..i])
    {
      assert versions[..i + 1][..i] == versions[..i];
      if versions[i].timestamp > best.timestamp {
        best := versions[i];
      }
    }
    assert versions[..|versions|] == versions;
  }

  /** The inner loop: whether another version comes after the i-th. */
  method FindDominator(versions: Versions, i: nat) returns (found: bool)
    requires i < |versions|
    ensures found == Dominated(versions, i)
  {
    found := false;
    for j := 0 to |versions|
      invariant forall k :: 0 <= k < j ==> !Supersedes(versions, k, i)
    {
      if i != j {
        var order := Compare(versions[i].clock, versions[j].clock);
        if order == Before {
          assert Supersedes(versions, j, i);
          return true;
        }
      }
    }
  }

  /** The versions that no other dominates, by way of the array of flags. */
  method FindHeads(versions: Versions) returns (heads: Versions)
    ensures heads == Heads(versions)
  {
    var dominated := new bool[|versions|];
    for i := 0 to |versions|
      invariant forall k :: 0 <= k < i ==> dominated[k] == Dominated(versions, k)
    {
      dominated[i] := FindDominator(versions, i);
    }
    heads := [];
    for i := 0 to |versions|
      invariant heads == HeadsUpTo(versions, i)
    {
      if !dominated[i] {
        heads := heads + [versions[i]];
      }
    }
  }

  method FindSiblings(heads: Versions, winner: VersionedValue) returns (siblings: Versions)
    ensures siblings == Others(heads, winner)
  {
    siblings := [];
    for i := 0 to |heads|
      invariant siblings == Others(heads[..i], winner)
    {
      assert heads[..i + 1] == heads[..i] + [heads[i]];
      FilterSnoc(heads[..i], heads[i], (v: VersionedValue) => v != winner);
      if heads[i] != winner {
        siblings := siblings + [heads[i]];
      }
    }
    assert heads[..|heads|] == heads;
  }

  method Detect(versions: Versions) returns (winner: VersionedValue?, siblings: Versions)
    ensures versions == [] ==> winner == null && siblings == []
    ensures versions != [] ==> Heads(versions) != []
    ensures versions != [] ==> winner == Newest(Heads(versions)) && siblings == Others(Heads(versions), winner)
  {
    if |versions| == 0 {
      return null, [];
    }
    HeadsNotEmpty(versions);
    if |versions| == 1 {
      OnlyVersion(versions);
      return versions[0], [];
    }
    var heads := FindHeads(versions);
    if |heads| == 1 {
      OnlyHead(heads);
      return heads[0], [];
    }
    var best := LwwResolve(heads);
    siblings := FindSiblings(heads, best);
    winner := best;
  }

  lemma {:induction false} OnlyHead(heads: Versions)
    requires |heads| == 1
    ensures Newest(heads) == heads[0] && Others(heads, heads[0]) == []
  {
    FilterNone(heads, (v: VersionedValue) => v != heads[0]);
  }

  lemma {:induction false} OnlyVersion(vs: Versions)
    requires |vs| == 1
    ensures Heads(vs) == vs && Newest(vs) == vs[0] && Others(vs, vs[0]) == []
  {
    assert !Dominated(vs, 0);
    assert HeadsUpTo(vs, 0) + [vs[0]] == vs;
    OnlyHead(vs);
  }

  // ---- what it means ----

  /** The versions that supersede the i-th. */
  ghost function Above(vs: Versions, i: nat): set<nat>
    requires i < |vs|
  {
    set j: nat | j < |vs| && Supersedes(vs, j, i)
  }

  lemma {:induction false} AboveShrinks(vs: Versions, i: nat, j: nat)
    requires i < |vs| && j < |vs| && Supersedes(vs, j, i)
    ensures Above(vs, j) < Above(vs, i)
  {
    forall k | k in Above(vs, j) ensures k in Above(vs, i) {
      BeforeTransitive(vs[i].clock, vs[j].clock, vs[k].clock);
    }
    assert j in Above(vs, i) && j !in Above(vs, j);
  }

  /** Every discarded version is superseded by a version that is kept. */
  lemma {:induction false} DiscardedIsCovered(vs: Versions, i: nat) returns (h: nat)
    requires i < |vs| && Dominated(vs, i)
    ensures h < |vs| && !Dominated(vs, h) && Supersedes(vs, h, i)
    decreases Above(vs, i)
  {
    h :| 0 <= h < |vs| && Supersedes(vs, h, i);
    if Dominated(vs, h) {
      AboveShrinks(vs, i, h);
      var g := DiscardedIsCovered(vs, h);
      BeforeTransitive(vs[i].clock, vs[h].clock, vs[g].clock);
      h := g;
    }
  }

  /** The heads are exactly the undominated versions. */
  lemma {:induction false} HeadsAre(vs: Versions, k: nat, v: VersionedValue)
    requires k <= |vs|
    ensures v in HeadsUpTo(vs, k) <==> exists i :: 0 <= i < k && vs[i] == v && !Dominated(vs, i)
  {
    if k == 0 {
    } else {
      HeadsAre(vs, k - 1, v);
    }
  }

  /** A non-empty list always has a head. */
  lemma {:induction false} HeadsNotEmpty(vs: Versions)
    requires vs != []
    ensures Heads(vs) != []
  {
    var h := 0;
    if Dominated(vs, 0) {
      h := DiscardedIsCovered(vs, 0);
    }
    HeadsAre(vs, |vs|, vs[h]);
    assert vs[h] in Heads(vs);
  }

  /** No head is Before or After another. */
  lemma {:induction false} HeadsAreIncomparable(vs: Versions, x: VersionedValue, y: VersionedValue)
    requires x in Heads(vs) && y in Heads(vs)
    ensures Relation(x.clock, y.clock) == Concurrent || Relation(x.clock, y.clock) == Equal
  {
    HeadsAre(vs, |vs|, x);
    HeadsAre(vs, |vs|, y);
    var i :| 0 <= i < |vs| && vs[i] == x && !Dominated(vs, i);
    var j :| 0 <= j < |vs| && vs[j] == y && !Dominated(vs, j);
    assert !Supersedes(vs, j, i) && !Supersedes(vs, i, j);
    RelationSwaps(x.clock, y.clock);
  }

  /** Newest picks the first of the largest timestamps. */
  lemma {:induction false} NewestIsFirstLargest(vs: Versions) returns (k: nat)
    requires vs != []
    ensures k < |vs| && vs[k] == Newest(vs)
    ensures forall i :: 0 <= i < |vs| ==> vs[i].timestamp <= vs[k].timestamp
    ensures forall i :: 0 <= i < k ==> vs[i].timestamp < vs[k].timestamp
  {
    var n := |vs| - 1;
    k := n;
    if n == 0 {
    } else {
      var b := NewestIsFirstLargest(vs[..n]);
      assert forall i :: 0 <= i < n ==> vs[..n][i] == vs[i];
      if vs[n].timestamp <= vs[b].timestamp {
        k := b;
      }
    }
  }

  lemma {:induction false} HeadsKeepDistinct(vs: Versions, k: nat)
    requires k <= |vs| && forall i, j :: 0 <= i < j < |vs| ==> vs[i] != vs[j]
    ensures forall i, j :: 0 <= i < j < |HeadsUpTo(vs, k)| ==> HeadsUpTo(vs, k)[i] != HeadsUpTo(vs, k)[j]
  {
    if k == 0 {
    } else {
      HeadsKeepDistinct(vs, k - 1);
      var before := HeadsUpTo(vs, k - 1);
      forall i | 0 <= i < |before| ensures before[i] != vs[k - 1] {
        HeadsAre(vs, k - 1, before[i]);
        assert before[i] in before;
      }
    }
  }

  lemma {:induction false} OthersCount(vs: Versions, winner: VersionedValue)
    requires winner in vs && forall i, j :: 0 <= i < j < |vs| ==> vs[i] != vs[j]
    ensures multiset(Others(vs, winner)) + multiset{winner} == multiset(vs)
  {
    var keep := (v: VersionedValue) => v != winner;
    assert vs == [vs[0]] + vs[1..];
    if vs[0] == winner {
      FilterAll(vs[1..], keep);
    } else {
      assert winner in vs[1..];
      OthersCount(vs[1..], winner);
    }
  }

  /**
   * For every non-empty list: the winner is a head with the largest timestamp; siblings are the
   * other heads, each Concurrent with or Equal to the winner; every version left out is Before some
   * head; and when the listed versions are distinct objects nothing is lost or repeated.
   */
  lemma {:induction false} DetectPartitions(vs: Versions, winner: VersionedValue, siblings: Versions)
    requires vs != [] && Heads(vs) != [] && winner == Newest(Heads(vs)) && siblings == Others(Heads(vs), winner)
    ensures winner in Heads(vs) && forall h :: h in Heads(vs) ==> h.timestamp <= winner.timestamp
    ensures forall v :: v in siblings <==> v in Heads(vs) && v != winner
    ensures forall v :: v in siblings ==> Relation(winner.clock, v.clock) in {Concurrent, Equal}
    ensures forall i :: 0 <= i < |vs| && vs[i] !in Heads(vs) ==>
              exists h :: h in Heads(vs) && Relation(vs[i].clock, h.clock) == Before
    ensures (forall i, j :: 0 <= i < j < |vs| ==> vs[i] != vs[j]) ==>
              multiset(siblings) + multiset{winner} == multiset(Heads(vs))
  {
    var heads := Heads(vs);
    var k := NewestIsFirstLargest(heads);
    assert winner == heads[k] && winner in heads;
    forall v ensures v in siblings <==> v in heads && v != winner {
      FilterMember(heads, (x: VersionedValue) => x != winner, v);
    }
    forall v | v in siblings ensures Relation(winner.clock, v.clock) in {Concurrent, Equal} {
      HeadsAreIncomparable(vs, winner, v);
    }
    forall i | 0 <= i < |vs| && vs[i] !in heads
      ensures exists h :: h in heads && Relation(vs[i].clock, h.clock) == Before
    {
      HeadsAre(vs, |vs|, vs[i]);
      var h := DiscardedIsCovered(vs, i);
      HeadsAre(vs, |vs|, vs[h]);
      assert vs[h] in heads;
    }
    if forall i, j :: 0 <= i < j < |vs| ==> vs[i] != vs[j] {
      HeadsKeepDistinct(vs, |vs|);
      OthersCount(heads, winner);
    }
  }

  /** A listed version with the same clock as a head is itself a head. */
  lemma {:induction false} EqualToHead(vs: Versions, head: VersionedValue, i: nat)
    requires head in Heads(vs) && i < |vs| && Relation(head.clock, vs[i].clock) == Equal
    ensures vs[i] in Heads(vs)
  {
    HeadsAre(vs, |vs|, head);
    var h :| 0 <= h < |vs| && vs[h] == head && !Dominated(vs, h);
    if Dominated(vs, i) {
      var j :| 0 <= j < |vs| && Supersedes(vs, j, i);
      EqualThenBefore(vs[h].clock, vs[i].clock, vs[j].clock);
      assert Supersedes(vs, j, h);
      assert false;
    }
    HeadsAre(vs, |vs|, vs[i]);
  }

  lemma {:induction false} EqualThenBefore(a: Clock, b: Clock, c: Clock)
    requires Relation(a, b) == Equal && Relation(b, c) == Before
    ensures Relation(a, c) == Before
  {
    LeqTransitive(a, b, c);
    if Leq(c, a) {
      LeqTransitive(c, a, b);
    }
  }

  /** Every sibling is Concurrent with the winner if and only if no other listed version has the winner's clock. */
  lemma {:induction false} SiblingsConcurrentIff(vs: Versions, winner: VersionedValue, siblings: Versions)
    requires vs != [] && Heads(vs) != [] && winner == Newest(Heads(vs)) && siblings == Others(Heads(vs), winner)
    ensures (forall v :: v in siblings ==> Relation(winner.clock, v.clock) == Concurrent)
       <==> (forall i :: 0 <= i < |vs| && vs[i] != winner ==> Relation(winner.clock, vs[i].clock) != Equal)
  {
    DetectPartitions(vs, winner, siblings);
    forall i | 0 <= i < |vs| && vs[i] != winner && Relation(winner.clock, vs[i].clock) == Equal
      ensures vs[i] in siblings
    {
      EqualToHead(vs, winner, i);
    }
    forall v | v in siblings ensures exists i :: 0 <= i < |vs| && vs[i] == v {
      HeadsAre(vs, |vs|, v);
    }
  }

  /** Two distinct versions with equal clocks: one is returned as a sibling of the other without a conflict. */
  lemma {:induction false} EqualClocksAreSiblings(a: VersionedValue, b: VersionedValue)
    requires a != b && Relation(a.clock, b.clock) == Equal
    ensures var vs := [a, b];
            && Heads(vs) == vs
            && var winner := Newest(vs);
            && Others(vs, winner) == [if winner == a then b else a]
            && Relation(winner.clock, Others(vs, winner)[0].clock) == Equal
  {
    TwoHeads(a, b);
    OtherOfTwo(a, b, Newest([a, b]));
    RelationSwaps(a.clock, b.clock);
  }

  lemma {:induction false} TwoHeads(a: VersionedValue, b: VersionedValue)
    requires Relation(a.clock, b.clock) == Equal
    ensures Heads([a, b]) == [a, b]
  {
    var vs := [a, b];
    RelationSwaps(a.clock, b.clock);
    assert forall j :: 0 <= j < |vs| ==> !Supersedes(vs, j, 0) && !Supersedes(vs, j, 1);
    assert HeadsUpTo(vs, 1) == HeadsUpTo(vs, 0) + [a] == [a];
    assert HeadsUpTo(vs, 2) == HeadsUpTo(vs, 1) + [b];
  }

  lemma {:induction false} OtherOfTwo(a: VersionedValue, b: VersionedValue, winner: VersionedValue)
    requires a != b && winner == Newest([a, b])
    ensures (winner == a || winner == b) && Others([a, b], winner) == [if winner == a then b else a]
  {
    var vs := [a, b];
    assert vs[..1] == [a];
    var other := (v: VersionedValue) => v != winner;
    FilterSnoc([a], b, other);
    FilterSnoc([], a, other);
    assert [] + [a] == [a] && [a] + [b] == vs;
  }
}
