/**
 * Runs of nodes that write versions and absorb each other's versions. Comparing the clocks of two
 * versions tells exactly how the versions are causally related.
 */
module Causality {
  import opened Common
  import opened VectorClocks

  /** A node writes a version with its incremented clock, or merges in a version written earlier. */
  datatype Event = Write(node: string) | Absorb(node: string, version: nat)

  type Run = seq<Event>

  /** Only versions that exist are absorbed. */
  predicate WellFormed(run: Run) {
    forall i :: 0 <= i < |run| && run[i].Absorb? ==> run[i].version < i && run[run[i].version].Write?
  }

  /** The clock of `node` after the first `i` events. */
  function NodeClock(run: Run, i: nat, node: string): Clock
    requires WellFormed(run) && i <= |run|
    decreases i
  {
    if i == 0 then map[]
    else if run[i - 1].node != node then NodeClock(run, i - 1, node)
    else match run[i - 1]
      case Write(_) => Incremented(NodeClock(run, i - 1, node), node)
      case Absorb(_, v) => Merged(NodeClock(run, i - 1, node), NodeClock(run, v + 1, run[v].node))
  }

  /** The clock attached to the version written by event `v`. */
  function VersionClock(run: Run, v: nat): Clock
    requires WellFormed(run) && v < |run|
  {
    NodeClock(run, v + 1, run[v].node)
  }

  // ---- causal order: the transitive closure of program order and receipt ----

  predicate Directly(run: Run, i: nat, j: nat)
    requires i < j < |run|
  {
    run[i].node == run[j].node || (run[j].Absorb? && run[j].version == i)
  }

  ghost predicate HappensBefore(run: Run, i: nat, j: nat)
    requires j < |run|
    decreases j
  {
    i < j && (Directly(run, i, j) || exists k :: i < k < j && HappensBefore(run, i, k) && Directly(run, k, j))
  }

  /** The events `node` knows of after the first `i` events. */
  function Known(run: Run, i: nat, node: string): set<nat>
    requires WellFormed(run) && i <= |run|
    decreases i
  {
    if i == 0 then {}
    else
      var before := Known(run, i - 1, node);
      if run[i - 1].node != node then before
      else match run[i - 1]
        case Write(_) => before + {i - 1}
        case Absorb(_, v) => before + {i - 1} + Known(run, v + 1, run[v].node)
  }

  lemma {:induction false} KnownIsPast(run: Run, i: nat, node: string)
    requires WellFormed(run) && i <= |run|
    ensures forall e :: e in Known(run, i, node) ==> e < i
    ensures forall e: nat :: e < i && run[e].node == node ==> e in Known(run, i, node)
    decreases i
  {
    if i == 0 {
    } else {
      KnownIsPast(run, i - 1, node);
      if run[i - 1].node == node && run[i - 1].Absorb? {
        var v := run[i - 1].version;
        KnownIsPast(run, v + 1, run[v].node);
      }
    }
  }

  /** Knowing an event means knowing everything its node knew then. */
  lemma {:induction false} KnownIsClosed(run: Run, i: nat, node: string, e: nat)
    requires WellFormed(run) && i <= |run| && e in Known(run, i, node) && e < |run|
    ensures Known(run, e + 1, run[e].node) <= Known(run, i, node)
    decreases i
  {
    KnownIsPast(run, i, node);
    KnownIsPast(run, i - 1, node);
    if run[i - 1].node == node && e == i - 1 {
    } else if e in Known(run, i - 1, node) {
      KnownIsClosed(run, i - 1, node, e);
    } else {
      var v := run[i - 1].version;
      KnownIsClosed(run, v + 1, run[v].node, e);
    }
  }

  /** The writes of one node become known in order. */
  lemma {:induction false} KnownDownward(run: Run, i: nat, node: string, e: nat, d: nat)
    requires WellFormed(run) && i <= |run| && e in Known(run, i, node) && d <= e < |run| && run[d].node == run[e].node
    ensures d in Known(run, i, node)
  {
    KnownIsClosed(run, i, node, e);
    KnownIsPast(run, e + 1, run[e].node);
  }

  /** What is known right after an event is the event and everything that happened before it. */
  lemma {:induction false} KnownIsHappensBefore(run: Run, e: nat, j: nat)
    requires WellFormed(run) && j < |run|
    ensures e in Known(run, j + 1, run[j].node) <==> e == j || HappensBefore(run, e, j)
    decreases j
  {
    var node := run[j].node;
    KnownIsPast(run, j + 1, node);
    KnownIsPast(run, j, node);
    if e in Known(run, j + 1, node) && e != j {
      if e in Known(run, j, node) {
        EarlierAtNode(run, e, j);
      } else {
        var v := run[j].version;
        KnownIsHappensBefore(run, e, v);
        KnownIsPast(run, v + 1, run[v].node);
        assert Directly(run, v, j);
      }
    }
    if HappensBefore(run, e, j) {
      if Directly(run, e, j) {
        DirectlyKnown(run, e, j);
      } else {
        var k :| e < k < j && HappensBefore(run, e, k) && Directly(run, k, j);
        KnownIsHappensBefore(run, e, k);
        DirectlyKnown(run, k, j);
        KnownIsClosed(run, j + 1, node, k);
      }
    }
  }

  lemma {:induction false} DirectlyKnown(run: Run, i: nat, j: nat)
    requires WellFormed(run) && i < j < |run| && Directly(run, i, j)
    ensures i in Known(run, j + 1, run[j].node)
  {
    KnownIsPast(run, j + 1, run[j].node);
    if run[i].node != run[j].node {
      KnownIsPast(run, i + 1, run[i].node);
      assert i in Known(run, i + 1, run[i].node);
    }
  }

  /** What a node knew before its event happened before that event. */
  lemma {:induction false} EarlierAtNode(run: Run, e: nat, j: nat)
    requires WellFormed(run) && j < |run| && e in Known(run, j, run[j].node)
    ensures HappensBefore(run, e, j)
    decreases j, 0
  {
    var node := run[j].node;
    KnownIsPast(run, j, node);
    var last := LastAtNode(run, j, node, e);
    KnownIsHappensBefore(run, e, last);
    assert Directly(run, last, j);
  }

  /** The latest earlier event of a node carries all the node knows. */
  lemma {:induction false} LastAtNode(run: Run, i: nat, node: string, e: nat) returns (last: nat)
    requires WellFormed(run) && i <= |run| && e in Known(run, i, node)
    ensures last < i && run[last].node == node && e in Known(run, last + 1, node)
    decreases i
  {
    if run[i - 1].node == node {
      last := i - 1;
    } else {
      last := LastAtNode(run, i - 1, node, e);
    }
  }

  // ---- counters count known writes ----

  ghost function WritesIn(run: Run, events: set<nat>, node: string): set<nat> {
    set w | w in events && w < |run| && run[w] == Write(node)
  }

  lemma {:induction false} CardinalityGrows(a: set<nat>, b: set<nat>)
    requires a <= b
    ensures |a| <= |b| && (a != b ==> |a| < |b|)
  {
    assert |b - a| + |a| == |b| by {
      assert b == (b - a) + a;
    }
    if a != b {
      var x :| x in b && x !in a;
      assert x in b - a;
    }
  }

  /** Of two nodes' knowledge of one node's writes, one contains the other. */
  lemma {:induction false} WritesNested(run: Run, i: nat, a: string, j: nat, b: string, node: string)
    requires WellFormed(run) && i <= |run| && j <= |run|
    ensures WritesIn(run, Known(run, i, a), node) <= WritesIn(run, Known(run, j, b), node)
         || WritesIn(run, Known(run, j, b), node) <= WritesIn(run, Known(run, i, a), node)
  {
    var x, y := WritesIn(run, Known(run, i, a), node), WritesIn(run, Known(run, j, b), node);
    if !(x <= y) {
      var w :| w in x && w !in y;
      forall v | v in y ensures v in x {
        if v <= w {
          KnownDownward(run, i, a, w, v);
        } else {
          KnownDownward(run, j, b, v, w);
        }
      }
    }
  }

  /** The union of nested sets of writes is the larger one. */
  lemma {:induction false} AbsorbedWrites(run: Run, before: set<nat>, other: set<nat>, i: nat, id: string)
    requires i < |run| && run[i].Absorb?
    requires WritesIn(run, before, id) <= WritesIn(run, other, id)
          || WritesIn(run, other, id) <= WritesIn(run, before, id)
    ensures var x, y := |WritesIn(run, before, id)|, |WritesIn(run, other, id)|;
            |WritesIn(run, before + {i} + other, id)| == if x < y then y else x
  {
    var a, b := WritesIn(run, before, id), WritesIn(run, other, id);
    assert WritesIn(run, before + {i} + other, id) == a + b;
    if a <= b {
      assert a + b == b;
      CardinalityGrows(a, b);
    } else {
      assert a + b == a;
      CardinalityGrows(b, a);
    }
  }

  /** One more write of `node` at event `i`. */
  lemma {:induction false} CountedWrite(run: Run, before: set<nat>, i: nat, node: string, id: string)
    requires i < |run| && run[i] == Write(node) && i !in before
    ensures |WritesIn(run, before + {i}, id)| == |WritesIn(run, before, id)| + if id == node then 1 else 0
  {
    if id == node {
      assert WritesIn(run, before + {i}, id) == WritesIn(run, before, id) + {i};
    } else {
      assert WritesIn(run, before + {i}, id) == WritesIn(run, before, id);
    }
  }

  lemma {:induction false} IncrementCounts(c: Clock, node: string, id: string)
    requires Count(c, node) < TWO_64 - 1
    ensures Count(Incremented(c, node), id) == Count(c, id) + if id == node then 1 else 0
  {
  }

  /** The number of known writes of `id`. */
  ghost function KnownWrites(run: Run, i: nat, node: string, id: string): nat
    requires WellFormed(run) && i <= |run|
  {
    |WritesIn(run, Known(run, i, node), id)|
  }

  ghost function WritesBefore(run: Run, i: nat, id: string): set<nat> {
    set w: nat | w < i && w < |run| && run[w] == Write(id)
  }

  /** How often `id` writes in the first `i` events. */
  ghost function WriteCount(run: Run, i: nat, id: string): nat {
    |WritesBefore(run, i, id)|
  }

  /** No node writes 2^64 times or more in the first `i` events. */
  ghost predicate CountersSuffice(run: Run, i: nat) {
    forall id :: WriteCount(run, i, id) < TWO_64
  }

  lemma {:induction false} WriteCountGrows(run: Run, i: nat, j: nat)
    requires i <= j
    ensures forall id :: WriteCount(run, i, id) <= WriteCount(run, j, id)
    ensures CountersSuffice(run, j) ==> CountersSuffice(run, i)
  {
    forall id ensures WriteCount(run, i, id) <= WriteCount(run, j, id) {
      CardinalityGrows(WritesBefore(run, i, id), WritesBefore(run, j, id));
    }
  }

  lemma {:induction false} KnownWritesBound(run: Run, i: nat, node: string, id: string)
    requires WellFormed(run) && i <= |run|
    ensures KnownWrites(run, i, node, id) <= WriteCount(run, i, id)
    ensures node == id ==> KnownWrites(run, i, node, id) == WriteCount(run, i, id)
  {
    KnownIsPast(run, i, node);
    var known, all := WritesIn(run, Known(run, i, node), id), WritesBefore(run, i, id);
    CardinalityGrows(known, all);
    assert node == id ==> known == all;
  }

  /** Each counter is the number of that node's writes that are known. */
  lemma {:induction false} CounterCountsWrites(run: Run, i: nat, node: string, id: string)
    requires WellFormed(run) && i <= |run| && CountersSuffice(run, i)
    ensures Count(NodeClock(run, i, node), id) == KnownWrites(run, i, node, id)
    decreases i
  {
    if i == 0 {
      assert WritesIn(run, {}, id) == {};
    } else {
      WriteCountGrows(run, i - 1, i);
      CounterCountsWrites(run, i - 1, node, id);
      if run[i - 1].node == node {
        match run[i - 1]
        case Write(_) =>
          CounterCountsWrites(run, i - 1, node, node);
          WriteIsCounted(run, i, id);
        case Absorb(_, v) =>
          WriteCountGrows(run, v + 1, i);
          CounterCountsWrites(run, v + 1, run[v].node, id);
          MergeCounts(NodeClock(run, i - 1, node), VersionClock(run, v), id);
          WritesNested(run, i - 1, node, v + 1, run[v].node, id);
          AbsorbedWrites(run, Known(run, i - 1, node), Known(run, v + 1, run[v].node), i - 1, id);
      }
    }
  }

  /** A write by a node that has not used up its counter is counted. */
  lemma {:induction false} WriteIsCounted(run: Run, i: nat, id: string)
    requires WellFormed(run) && 0 < i <= |run| && run[i - 1].Write? && CountersSuffice(run, i)
    requires var node := run[i - 1].node;
             && Count(NodeClock(run, i - 1, node), id) == KnownWrites(run, i - 1, node, id)
             && Count(NodeClock(run, i - 1, node), node) == KnownWrites(run, i - 1, node, node)
    ensures Count(NodeClock(run, i, run[i - 1].node), id) == KnownWrites(run, i, run[i - 1].node, id)
  {
    var node := run[i - 1].node;
    KnownIsPast(run, i - 1, node);
    CountedWrite(run, Known(run, i - 1, node), i - 1, node, id);
    CountedWrite(run, Known(run, i - 1, node), i - 1, node, node);
    KnownWritesBound(run, i, node, node);
    IncrementCounts(NodeClock(run, i - 1, node), node, id);
  }

  // ---- the main result ----

  /** Whoever knows an event knows at least the writes its node knew then. */
  lemma {:induction false} KnownImpliesMore(run: Run, a: nat, i: nat, node: string, id: string)
    requires WellFormed(run) && a < |run| && i <= |run| && a in Known(run, i, node)
    ensures KnownWrites(run, a + 1, run[a].node, id) <= KnownWrites(run, i, node, id)
  {
    KnownIsClosed(run, i, node, a);
    CardinalityGrows(WritesIn(run, Known(run, a + 1, run[a].node), id), WritesIn(run, Known(run, i, node), id));
  }

  /** Someone who does not know a write knows fewer writes of that node than the writer did. */
  lemma {:induction false} UnknownImpliesFewer(run: Run, a: nat, i: nat, node: string)
    requires WellFormed(run) && a < |run| && i <= |run| && run[a].Write? && a !in Known(run, i, node)
    ensures KnownWrites(run, i, node, run[a].node) < KnownWrites(run, a + 1, run[a].node, run[a].node)
  {
    var id := run[a].node;
    var mine, theirs := Known(run, a + 1, id), Known(run, i, node);
    KnownIsPast(run, a + 1, id);
    forall w | w in WritesIn(run, theirs, id) ensures w in mine {
      if w >= a {
        KnownDownward(run, i, node, w, a);
      }
    }
    assert a in WritesIn(run, mine, id) && a !in WritesIn(run, theirs, id);
    CardinalityGrows(WritesIn(run, theirs, id), WritesIn(run, mine, id));
  }

  /** The counters of `x` are the numbers of writes known to `node` after `i` events. */
  ghost predicate Counts(x: Clock, run: Run, i: nat, node: string)
    requires WellFormed(run) && i <= |run|
  {
    forall id :: Count(x, id) == KnownWrites(run, i, node, id)
  }

  lemma {:induction false} ClockCounts(run: Run, i: nat, node: string)
    requires WellFormed(run) && i <= |run| && CountersSuffice(run, i)
    ensures Counts(NodeClock(run, i, node), run, i, node)
  {
    forall id ensures Count(NodeClock(run, i, node), id) == KnownWrites(run, i, node, id) {
      CounterCountsWrites(run, i, node, id);
    }
  }

  lemma {:induction false} LeqIfKnown(run: Run, a: nat, i: nat, node: string, x: Clock, y: Clock)
    requires WellFormed(run) && a < |run| && i <= |run|
    requires Counts(x, run, a + 1, run[a].node) && Counts(y, run, i, node) && a in Known(run, i, node)
    ensures Leq(x, y)
  {
    forall id ensures Count(x, id) <= Count(y, id) {
      KnownImpliesMore(run, a, i, node, id);
    }
  }

  lemma {:induction false} KnownIfLeq(run: Run, a: nat, i: nat, node: string, x: Clock, y: Clock)
    requires WellFormed(run) && a < |run| && i <= |run| && run[a].Write?
    requires Counts(x, run, a + 1, run[a].node) && Counts(y, run, i, node) && Leq(x, y)
    ensures a in Known(run, i, node)
  {
    assert Count(x, run[a].node) <= Count(y, run[a].node);
    if a !in Known(run, i, node) {
      UnknownImpliesFewer(run, a, i, node);
    }
  }

  /** Clocks that count known writes are ordered exactly as knowledge is. */
  lemma {:induction false} LeqIffKnownTo(run: Run, a: nat, i: nat, node: string, x: Clock, y: Clock)
    requires WellFormed(run) && a < |run| && i <= |run| && run[a].Write?
    requires Counts(x, run, a + 1, run[a].node) && Counts(y, run, i, node)
    ensures Leq(x, y) <==> a in Known(run, i, node)
  {
    if a in Known(run, i, node) {
      LeqIfKnown(run, a, i, node, x, y);
    }
    if Leq(x, y) {
      KnownIfLeq(run, a, i, node, x, y);
    }
  }

  /** One version's clock is below another's exactly when the version is known where the other is written. */
  lemma {:induction false} LeqIffKnown(run: Run, a: nat, b: nat)
    requires WellFormed(run) && a < |run| && b < |run| && run[a].Write?
    requires CountersSuffice(run, a + 1) && CountersSuffice(run, b + 1)
    ensures Leq(VersionClock(run, a), VersionClock(run, b)) <==> a in Known(run, b + 1, run[b].node)
  {
    ClockCounts(run, a + 1, run[a].node);
    ClockCounts(run, b + 1, run[b].node);
    LeqIffKnownTo(run, a, b + 1, run[b].node, VersionClock(run, a), VersionClock(run, b));
  }

  /**
   * Comparing the clocks of the versions written by `a` and `b` returns Before exactly when the first
   * happened before the second, After exactly when the second happened before the first, Equal exactly
   * when they are the same version, and Concurrent exactly when neither happened before the other.
   */
  ghost predicate Decided(run: Run, a: nat, b: nat)
    requires WellFormed(run) && a < |run| && b < |run|
  {
    var r := Relation(VersionClock(run, a), VersionClock(run, b));
    && (r == Before <==> HappensBefore(run, a, b))
    && (r == After <==> HappensBefore(run, b, a))
    && (r == Equal <==> a == b)
    && (r == Concurrent <==> a != b && !HappensBefore(run, a, b) && !HappensBefore(run, b, a))
  }

  /** Clocks decide causality in every run up to the first write that wraps a counter. */
  lemma {:induction false} CompareIsCausality(run: Run, a: nat, b: nat)
    requires WellFormed(run) && a < |run| && b < |run| && run[a].Write? && run[b].Write?
    requires CountersSuffice(run, a + 1) && CountersSuffice(run, b + 1)
    ensures Decided(run, a, b)
  {
    LeqIffKnown(run, a, b);
    LeqIffKnown(run, b, a);
    KnownIsHappensBefore(run, a, b);
    KnownIsHappensBefore(run, b, a);
  }

  // ---- the converse ----

  /** The first event after which some node has written 2^64 times is a write of that node. */
  lemma {:induction false} FirstOverflow(run: Run, i: nat) returns (b: nat, id: string)
    requires i <= |run| && !CountersSuffice(run, i)
    ensures b < i && run[b] == Write(id) && CountersSuffice(run, b) && WriteCount(run, b, id) == TWO_64 - 1
    decreases i
  {
    NothingWritten(run);
    if CountersSuffice(run, i - 1) {
      b := i - 1;
      id :| WriteCount(run, i, id) >= TWO_64;
      OneMoreEvent(run, b, id);
    } else {
      b, id := FirstOverflow(run, i - 1);
    }
  }

  lemma {:induction false} NothingWritten(run: Run)
    ensures CountersSuffice(run, 0)
  {
    forall id ensures WriteCount(run, 0, id) == 0 {
      assert WritesBefore(run, 0, id) == {};
    }
  }

  lemma {:induction false} OneMoreEvent(run: Run, i: nat, id: string)
    requires i < |run|
    ensures WriteCount(run, i + 1, id) == WriteCount(run, i, id) + if run[i] == Write(id) then 1 else 0
  {
    var before, after := WritesBefore(run, i, id), WritesBefore(run, i + 1, id);
    if run[i] == Write(id) {
      assert after == before + {i};
    } else {
      assert after == before;
    }
  }

  /** A node that has written has a latest write, and has known it ever since. */
  lemma {:induction false} EarlierWrite(run: Run, b: nat, id: string) returns (a: nat)
    requires b <= |run| && WriteCount(run, b, id) > 0
    ensures a < b && run[a] == Write(id)
  {
    a :| a in WritesBefore(run, b, id);
  }

  /** The write that wraps a counter is not seen as coming after any of the writer's earlier ones. */
  lemma {:induction false} WrapHidesCause(run: Run, a: nat, b: nat, id: string)
    requires WellFormed(run) && a < b < |run| && run[a] == Write(id) && run[b] == Write(id)
    requires CountersSuffice(run, b) && WriteCount(run, b, id) == TWO_64 - 1
    ensures HappensBefore(run, a, b) && Relation(VersionClock(run, a), VersionClock(run, b)) != Before
  {
    assert Directly(run, a, b);
    CounterCountsWrites(run, b, id, id);
    KnownWritesBound(run, b, id, id);
    assert Count(VersionClock(run, b), id) == 0;
    WriteCountGrows(run, a + 1, b);
    CounterCountsWrites(run, a + 1, id, id);
    KnownWritesBound(run, a + 1, id, id);
    OneMoreEvent(run, a, id);
    assert Count(VersionClock(run, a), id) > 0;
  }

  /** Clocks decide causality between all versions of a run if and only if no node writes 2^64 times. */
  lemma {:induction false} CausalityIffCountersSuffice(run: Run)
    requires WellFormed(run)
    ensures CountersSuffice(run, |run|)
       <==> forall a, b :: 0 <= a < |run| && 0 <= b < |run| && run[a].Write? && run[b].Write? ==> Decided(run, a, b)
  {
    if CountersSuffice(run, |run|) {
      forall a, b | 0 <= a < |run| && 0 <= b < |run| && run[a].Write? && run[b].Write? ensures Decided(run, a, b) {
        WriteCountGrows(run, a + 1, |run|);
        WriteCountGrows(run, b + 1, |run|);
        CompareIsCausality(run, a, b);
      }
    } else {
      var b, id := FirstOverflow(run, |run|);
      var a := EarlierWrite(run, b, id);
      WrapHidesCause(run, a, b, id);
      assert !Decided(run, a, b);
    }
  }
}
