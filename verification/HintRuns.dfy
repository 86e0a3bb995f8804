/**
 * Runs of hinted handoff in which new hints may arrive while a delivery is under way: it reads a
 * node's hints, sends them one by one, and replaces the node's hints at the end. Every hint stays
 * accounted for, and the hints that get lost are named exactly.
 */
module HintRuns {
  import opened Common
  import opened Hints

  /**
   * The handoff; for each delivery in progress the hints it took, how those sent so far ended, and
   * the hints that arrived for the same node since; and a ledger of everything ever stored (in
   * order), delivered, expired, and lost because it arrived during a delivery.
   */
  datatype System = System(
    handoff: Handoff,
    taken: map<string, seq<Hint>>,
    sent: map<string, seq<Outcome>>,
    arrived: map<string, seq<Hint>>,
    stored: seq<Hint>,
    delivered: multiset<Hint>,
    expired: multiset<Hint>,
    lost: multiset<Hint>)

  datatype Step =
    | Store(h: Hint)
    | Begin(node: string)
    | Send(node: string, now: int, accepted: bool)
    | Finish(node: string)

  predicate IsInitial(s: System) {
    s == System(Handoff(map[], map[]), map[], map[], map[], [], multiset{}, multiset{}, multiset{})
  }

  /** A delivery to the node is under way and has hints left. */
  predicate CanSend(s: System, node: string) {
    node in s.taken && node in s.sent && |s.sent[node]| < |s.taken[node]|
  }

  /** Deliveries run one after another, so a node has at most one in progress; an empty one does nothing. */
  predicate Enabled(s: System, step: Step) {
    match step
    case Store(_) => true
    case Begin(node) => node !in s.taken && For(s.handoff.hints, node) != []
    case Send(node, _, _) => CanSend(s, node)
    case Finish(node) => node in s.taken && node in s.sent && |s.sent[node]| == |s.taken[node]|
  }

  /** The state once the next hint of a delivery has been dealt with; its record goes at once if it was accepted. */
  function AfterSend(s: System, node: string, o: Outcome): System
    requires CanSend(s, node)
  {
    var h := s.taken[node][|s.sent[node]|];
    var records := if o == Delivered then s.handoff.records - {RecordKey(h)} else s.handoff.records;
    s.(handoff := Handoff(s.handoff.hints, records),
       sent := s.sent[node := s.sent[node] + [o]],
       delivered := if o == Delivered then s.delivered + multiset{h} else s.delivered,
       expired := if o == Expired then s.expired + multiset{h} else s.expired)
  }

  /** The state once a delivery has replaced the node's hints by those it could not deliver. */
  function AfterFinish(s: System, node: string): System
    requires Enabled(s, Finish(node))
  {
    var remaining := With(s.taken[node], s.sent[node], Failed);
    var hints := if remaining == [] then s.handoff.hints - {node} else s.handoff.hints[node := remaining];
    s.(handoff := Handoff(hints, s.handoff.records),
       taken := s.taken - {node},
       sent := s.sent - {node},
       arrived := s.arrived - {node},
       lost := s.lost + multiset(For(s.arrived, node)))
  }

  function Next(s: System, step: Step): System
    requires Enabled(s, step)
  {
    match step
    case Store(h) =>
      s.(handoff := Stored(s.handoff, h),
         arrived := if h.node in s.taken then s.arrived[h.node := For(s.arrived, h.node) + [h]] else s.arrived,
         stored := s.stored + [h])
    case Begin(node) =>
      s.(taken := s.taken[node := For(s.handoff.hints, node)],
         sent := s.sent[node := []],
         arrived := s.arrived[node := []])
    case Send(node, now, accepted) =>
      AfterSend(s, node, OutcomeOf(s.taken[node][|s.sent[node]|], now, accepted))
    case Finish(node) => AfterFinish(s, node)
  }

  ghost predicate IsRun(s: System, steps: seq<Step>)
    decreases steps
  {
    steps == [] || (Enabled(s, steps[0]) && IsRun(Next(s, steps[0]), steps[1..]))
  }

  ghost function After(s: System, steps: seq<Step>): System
    requires IsRun(s, steps)
    decreases steps
  {
    if steps == [] then s else After(Next(s, steps[0]), steps[1..])
  }

  ghost predicate Reachable(s: System) {
    exists start: System, steps: seq<Step> :: IsInitial(start) && IsRun(start, steps) && After(start, steps) == s
  }

  // ---- the ledger ----

  /** During a delivery the node's hints are those taken followed by those that arrived since. */
  ghost predicate Tracked(s: System) {
    && s.taken.Keys == s.arrived.Keys == s.sent.Keys
    && forall node :: node in s.taken ==>
         |s.sent[node]| <= |s.taken[node]| && For(s.handoff.hints, node) == s.taken[node] + s.arrived[node]
  }

  /** What is open during a delivery: the hints that failed, were not tried, or arrived. */
  function OpenOf(taken: seq<Hint>, sent: seq<Outcome>, arrived: seq<Hint>): seq<Hint>
    requires |sent| <= |taken|
  {
    With(taken, sent, Failed) + taken[|sent|..] + arrived
  }

  /** The hints of a node still to be dealt with. */
  ghost function Open(s: System, node: string): seq<Hint>
    requires Tracked(s)
  {
    if node in s.taken then OpenOf(s.taken[node], s.sent[node], s.arrived[node]) else For(s.handoff.hints, node)
  }

  ghost function PendingOf(s: System, h: Hint): nat
    requires Tracked(s)
  {
    multiset(Open(s, h.node))[h]
  }

  ghost predicate Balanced(s: System, h: Hint)
    requires Tracked(s)
  {
    multiset(s.stored)[h] == PendingOf(s, h) + s.delivered[h] + s.expired[h] + s.lost[h]
  }

  ghost predicate Inv(s: System) {
    && Tracked(s) && Addressed(s.handoff.hints)
    && (forall h: Hint :: Balanced(s, h))
    && (forall node :: IsSubsequence(For(s.handoff.hints, node), s.stored))
  }

  lemma {:induction false} AddressedFor(hints: Pending, node: string, part: seq<Hint>, h: Hint)
    requires Addressed(hints) && (forall x :: x in part ==> x in For(hints, node)) && h in part
    ensures h.node == node
  {
    assert h in For(hints, node);
  }

  /** Hints of other nodes do not occur among a node's hints. */
  lemma {:induction false} ForeignCount(hints: Pending, node: string, part: seq<Hint>, h: Hint)
    requires Addressed(hints) && h.node != node && forall x :: x in part ==> x in For(hints, node)
    ensures multiset(part)[h] == 0
  {
    if h in part {
      AddressedFor(hints, node, part, h);
    }
  }

  /** Storing appends the hint to the open hints of its node. */
  lemma {:induction false} StoreOpen(s: System, x: Hint, node: string)
    requires Tracked(s)
    ensures Tracked(Next(s, Store(x)))
    ensures Open(Next(s, Store(x)), node) == Open(s, node) + if node == x.node then [x] else []
  {
    StoreTracked(s, x);
    if node in s.taken && node == x.node {
      OneMoreOpen(s.taken[node], s.sent[node], s.arrived[node], x);
    }
  }

  lemma {:induction false} OneMoreOpen(taken: seq<Hint>, sent: seq<Outcome>, arrived: seq<Hint>, x: Hint)
    requires |sent| <= |taken|
    ensures OpenOf(taken, sent, arrived + [x]) == OpenOf(taken, sent, arrived) + [x]
  {
  }

  lemma {:induction false} StoreBalanced(s: System, x: Hint, h: Hint)
    requires Tracked(s) && Balanced(s, h)
    ensures Tracked(Next(s, Store(x))) && Balanced(Next(s, Store(x)), h)
  {
    StoreOpen(s, x, h.node);
    assert multiset(Open(s, h.node) + [x]) == multiset(Open(s, h.node)) + multiset{x};
    assert Open(s, h.node) + [] == Open(s, h.node);
  }

  lemma {:induction false} BeginOpen(s: System, node: string, x: string)
    requires Tracked(s) && Enabled(s, Begin(node))
    ensures Tracked(Next(s, Begin(node))) && Open(Next(s, Begin(node)), x) == Open(s, x)
  {
    var all := For(s.handoff.hints, node);
    assert all + [] == all && [] + all[0..] == all;
  }

  lemma {:induction false} OpenParts(taken: seq<Hint>, sent: seq<Outcome>, arrived: seq<Hint>)
    requires |sent| < |taken|
    ensures OpenOf(taken, sent, arrived)
         == With(taken, sent, Failed) + [taken[|sent|]] + taken[|sent| + 1..] + arrived
  {
    assert taken[|sent|..] == [taken[|sent|]] + taken[|sent| + 1..];
  }

  lemma {:induction false} SentParts(taken: seq<Hint>, sent: seq<Outcome>, arrived: seq<Hint>, o: Outcome)
    requires |sent| < |taken|
    ensures OpenOf(taken, sent + [o], arrived)
         == With(taken, sent, Failed) + (if o == Failed then [taken[|sent|]] else []) + taken[|sent| + 1..] + arrived
  {
    WithOne(taken, sent, o, Failed);
  }

  lemma {:induction false} OneLessOpen(taken: seq<Hint>, sent: seq<Outcome>, arrived: seq<Hint>, o: Outcome)
    requires |sent| < |taken|
    ensures multiset(OpenOf(taken, sent, arrived))
         == multiset(OpenOf(taken, sent + [o], arrived)) + if o == Failed then multiset{} else multiset{taken[|sent|]}
  {
    var tried, x, rest := With(taken, sent, Failed), taken[|sent|], taken[|sent| + 1..];
    OpenParts(taken, sent, arrived);
    SentParts(taken, sent, arrived, o);
    MultisetOfFour(tried, [x], rest, arrived);
    MultisetOfFour(tried, [], rest, arrived);
  }

  lemma {:induction false} MultisetOfFour(a: seq<Hint>, b: seq<Hint>, c: seq<Hint>, d: seq<Hint>)
    ensures multiset(a + b + c + d) == multiset(a) + multiset(b) + multiset(c) + multiset(d)
  {
  }

  /** Sending takes one hint out of the open ones, unless it failed. */
  lemma {:induction false} SendOpen(s: System, node: string, o: Outcome)
    requires Tracked(s) && CanSend(s, node)
    ensures Tracked(AfterSend(s, node, o))
    ensures multiset(Open(s, node)) == multiset(Open(AfterSend(s, node, o), node))
                                     + if o == Failed then multiset{} else multiset{s.taken[node][|s.sent[node]|]}
    ensures forall x :: x != node ==> Open(AfterSend(s, node, o), x) == Open(s, x)
  {
    SendTracked(s, node, o);
    OneLessOpen(s.taken[node], s.sent[node], s.arrived[node], o);
  }

  lemma {:induction false} SendTracked(s: System, node: string, o: Outcome)
    requires Tracked(s) && CanSend(s, node)
    ensures Tracked(AfterSend(s, node, o))
  {
    var t := AfterSend(s, node, o);
    assert t.taken == s.taken && t.arrived == s.arrived && t.handoff.hints == s.handoff.hints;
  }

  lemma {:induction false} SendBalanced(s: System, node: string, o: Outcome, h: Hint)
    requires Tracked(s) && Addressed(s.handoff.hints) && Balanced(s, h) && CanSend(s, node)
    ensures Tracked(AfterSend(s, node, o)) && Balanced(AfterSend(s, node, o), h)
  {
    SendOpen(s, node, o);
    var x := s.taken[node][|s.sent[node]|];
    assert x.node == node by {
      assert For(s.handoff.hints, node)[|s.sent[node]|] == x;
    }
  }

  /** Finishing loses exactly what arrived. */
  lemma {:induction false} FinishOpen(s: System, node: string)
    requires Tracked(s) && Enabled(s, Finish(node))
    ensures Tracked(AfterFinish(s, node))
    ensures Open(s, node) == Open(AfterFinish(s, node), node) + s.arrived[node]
    ensures forall x :: x != node ==> Open(AfterFinish(s, node), x) == Open(s, x)
  {
    var t, taken, sent := AfterFinish(s, node), s.taken[node], s.sent[node];
    assert taken[|sent|..] == [];
    assert With(taken, sent, Failed) + [] == With(taken, sent, Failed);
    forall x | x in t.taken ensures For(t.handoff.hints, x) == t.taken[x] + t.arrived[x] {
      assert For(t.handoff.hints, x) == For(s.handoff.hints, x);
    }
    assert Open(t, node) == With(taken, sent, Failed);
  }

  lemma {:induction false} FinishBalanced(s: System, node: string, h: Hint)
    requires Tracked(s) && Addressed(s.handoff.hints) && Balanced(s, h) && Enabled(s, Finish(node))
    ensures Tracked(AfterFinish(s, node)) && Balanced(AfterFinish(s, node), h)
  {
    FinishOpen(s, node);
    var arrived := s.arrived[node];
    if h.node == node {
      assert multiset(Open(AfterFinish(s, node), node) + arrived)
          == multiset(Open(AfterFinish(s, node), node)) + multiset(arrived);
    } else {
      ForeignCount(s.handoff.hints, node, arrived, h);
    }
  }

  // ---- order ----

  lemma {:induction false} SubsequenceGrows(kept: seq<Hint>, all: seq<Hint>, x: Hint)
    requires IsSubsequence(kept, all)
    ensures IsSubsequence(kept, all + [x]) && IsSubsequence(kept + [x], all + [x])
  {
    var at: seq<nat> :| Picks(at, kept, all);
    assert Picks(at, kept, all + [x]);
    assert Picks(at + [|all|], kept + [x], all + [x]);
  }

  lemma {:induction false} SubsequencePrefix(kept: seq<Hint>, more: seq<Hint>, all: seq<Hint>)
    requires IsSubsequence(kept + more, all)
    ensures IsSubsequence(kept, all)
  {
    var at: seq<nat> :| Picks(at, kept + more, all);
    assert forall i :: 0 <= i < |kept| ==> (kept + more)[i] == kept[i];
    assert Picks(at[..|kept|], kept, all);
  }

  lemma {:induction false} SubsequenceTransitive(a: seq<Hint>, b: seq<Hint>, c: seq<Hint>)
    requires IsSubsequence(a, b) && IsSubsequence(b, c)
    ensures IsSubsequence(a, c)
  {
    var p: seq<nat> :| Picks(p, a, b);
    var q: seq<nat> :| Picks(q, b, c);
    var r := seq(|p|, i requires 0 <= i < |p| => q[p[i]]);
    assert Picks(r, a, c);
  }

  lemma {:induction false} FinishInOrder(s: System, node: string, x: string)
    requires Tracked(s) && Enabled(s, Finish(node)) && IsSubsequence(For(s.handoff.hints, x), s.stored)
    ensures IsSubsequence(For(AfterFinish(s, node).handoff.hints, x), s.stored)
  {
    var t, taken := AfterFinish(s, node), s.taken[node];
    if x == node {
      SubsequencePrefix(taken, s.arrived[node], s.stored);
      var at := WithKeepsOrder(taken, s.sent[node], Failed);
      SubsequenceTransitive(With(taken, s.sent[node], Failed), taken, s.stored);
      assert For(t.handoff.hints, node) == With(taken, s.sent[node], Failed);
    } else {
      assert For(t.handoff.hints, x) == For(s.handoff.hints, x);
    }
  }

  // ---- every step keeps the invariant ----

  lemma {:induction false} StoredFor(s: System, x: Hint, node: string)
    ensures For(Next(s, Store(x)).handoff.hints, node)
         == For(s.handoff.hints, node) + if node == x.node then [x] else []
  {
  }

  lemma {:induction false} StoreTracked(s: System, x: Hint)
    requires Tracked(s)
    ensures Tracked(Next(s, Store(x)))
  {
    var t := Next(s, Store(x));
    forall node | node in t.taken ensures For(t.handoff.hints, node) == t.taken[node] + t.arrived[node] {
      StoredFor(s, x, node);
      if node == x.node {
        assert s.taken[node] + s.arrived[node] + [x] == s.taken[node] + (s.arrived[node] + [x]);
      }
    }
  }

  lemma {:induction false} StoreInOrder(s: System, x: Hint, node: string)
    requires IsSubsequence(For(s.handoff.hints, node), s.stored)
    ensures IsSubsequence(For(Next(s, Store(x)).handoff.hints, node), s.stored + [x])
  {
    StoredFor(s, x, node);
    SubsequenceGrows(For(s.handoff.hints, node), s.stored, x);
    assert For(s.handoff.hints, node) + [] == For(s.handoff.hints, node);
  }

  lemma {:induction false} StoreKeepsInv(s: System, x: Hint)
    requires Inv(s)
    ensures Inv(Next(s, Store(x)))
  {
    var t := Next(s, Store(x));
    StoreTracked(s, x);
    assert Addressed(t.handoff.hints) by {
      StoredFor(s, x, x.node);
    }
    forall h: Hint ensures Balanced(t, h) {
      StoreBalanced(s, x, h);
    }
    forall node ensures IsSubsequence(For(t.handoff.hints, node), t.stored) {
      StoreInOrder(s, x, node);
    }
  }

  lemma {:induction false} SendKeepsInv(s: System, node: string, o: Outcome)
    requires Inv(s) && CanSend(s, node)
    ensures Inv(AfterSend(s, node, o))
  {
    var t := AfterSend(s, node, o);
    SendOpen(s, node, o);
    forall h: Hint ensures Balanced(t, h) {
      SendBalanced(s, node, o, h);
    }
  }

  lemma {:induction false} FinishKeepsInv(s: System, node: string)
    requires Inv(s) && Enabled(s, Finish(node))
    ensures Inv(AfterFinish(s, node))
  {
    var t, taken := AfterFinish(s, node), s.taken[node];
    FinishOpen(s, node);
    forall h | h in taken ensures h.node == node {
      AddressedFor(s.handoff.hints, node, taken, h);
    }
    FinishedAddressed(s.handoff, node, taken, s.sent[node]);
    assert t.handoff.hints == Finished(s.handoff, node, taken, s.sent[node]).hints;
    forall h: Hint ensures Balanced(t, h) {
      FinishBalanced(s, node, h);
    }
    forall x ensures IsSubsequence(For(t.handoff.hints, x), t.stored) {
      FinishInOrder(s, node, x);
    }
  }

  lemma {:induction false} BeginKeepsInv(s: System, node: string)
    requires Inv(s) && Enabled(s, Begin(node))
    ensures Inv(Next(s, Begin(node)))
  {
    var t := Next(s, Begin(node));
    BeginOpen(s, node, node);
    forall h: Hint ensures Balanced(t, h) {
      BeginOpen(s, node, h.node);
      assert Balanced(s, h);
    }
  }

  lemma {:induction false} StepKeepsInv(s: System, step: Step)
    requires Inv(s) && Enabled(s, step)
    ensures Inv(Next(s, step))
  {
    match step
    case Store(x) => StoreKeepsInv(s, x);
    case Begin(node) => BeginKeepsInv(s, node);
    case Send(node, now, accepted) => SendKeepsInv(s, node, OutcomeOf(s.taken[node][|s.sent[node]|], now, accepted));
    case Finish(node) => FinishKeepsInv(s, node);
  }

  lemma {:induction false} RunKeepsInv(s: System, steps: seq<Step>)
    requires Inv(s) && IsRun(s, steps)
    ensures Inv(After(s, steps))
    decreases steps
  {
    if steps == [] {
    } else {
      StepKeepsInv(s, steps[0]);
      RunKeepsInv(Next(s, steps[0]), steps[1..]);
    }
  }

  lemma {:induction false} InitialInv(s: System)
    requires IsInitial(s)
    ensures Inv(s)
  {
    forall node ensures IsSubsequence(For(s.handoff.hints, node), s.stored) {
      assert Picks([], [], []);
    }
  }

  /**
   * Over every run, in any interleaving: each hint ever stored is exactly one of pending,
   * delivered, expired, or lost to a delivery during which it arrived; and the pending hints of a
   * node are in the order in which they were stored.
   */
  lemma {:induction false} HintsAreAccountedFor(s: System, h: Hint, node: string)
    requires Reachable(s)
    ensures Tracked(s) && multiset(s.stored)[h] == PendingOf(s, h) + s.delivered[h] + s.expired[h] + s.lost[h]
    ensures IsSubsequence(For(s.handoff.hints, node), s.stored)
  {
    ReachableInv(s);
    assert Balanced(s, h);
  }

  lemma {:induction false} ReachableInv(s: System)
    requires Reachable(s)
    ensures Inv(s)
  {
    var start: System, steps: seq<Step> :| IsInitial(start) && IsRun(start, steps) && After(start, steps) == s;
    InitialInv(start);
    RunKeepsInv(start, steps);
  }

  lemma {:induction false} RunSnoc(s: System, steps: seq<Step>, step: Step)
    requires IsRun(s, steps) && Enabled(After(s, steps), step)
    ensures IsRun(s, steps + [step]) && After(s, steps + [step]) == Next(After(s, steps), step)
    decreases steps
  {
    if steps == [] {
      assert steps + [step] == [step] && [step][1..] == [];
    } else {
      assert (steps + [step])[0] == steps[0] && (steps + [step])[1..] == steps[1..] + [step];
      RunSnoc(Next(s, steps[0]), steps[1..], step);
    }
  }

  lemma {:induction false} ReachableNext(s: System, step: Step)
    requires Reachable(s) && Enabled(s, step)
    ensures Reachable(Next(s, step))
  {
    var start: System, steps: seq<Step> :| IsInitial(start) && IsRun(start, steps) && After(start, steps) == s;
    RunSnoc(start, steps, step);
    assert IsRun(start, steps + [step]);
  }

  predicate NoFinish(steps: seq<Step>, node: string) {
    forall i :: 0 <= i < |steps| ==> steps[i] != Finish(node)
  }

  /** A hint that has arrived during a delivery stays so until the delivery finishes; nothing lost comes back. */
  lemma {:induction false} StaysArrived(s: System, b: Hint, steps: seq<Step>)
    requires Inv(s) && b.node in s.taken && b in For(s.arrived, b.node) && IsRun(s, steps) && NoFinish(steps, b.node)
    ensures var t := After(s, steps);
            && b.node in t.taken && b in For(t.arrived, b.node) && t.taken[b.node] == s.taken[b.node]
            && t.lost[b] >= s.lost[b]
    decreases steps
  {
    if steps == [] {
    } else {
      StepKeepsInv(s, steps[0]);
      assert steps[0] != Finish(b.node);
      StaysArrived(Next(s, steps[0]), b, steps[1..]);
    }
  }

  lemma {:induction false} ReachableAfter(s: System, steps: seq<Step>)
    requires Reachable(s) && IsRun(s, steps)
    ensures Reachable(After(s, steps))
    decreases steps
  {
    if steps == [] {
    } else {
      ReachableNext(s, steps[0]);
      ReachableAfter(Next(s, steps[0]), steps[1..]);
    }
  }

  /**
   * In every reachable state with a delivery to a node under way: a hint stored for that node now is
   * lost when the delivery finishes, whatever happens in between; only the hints that failed stay.
   */
  lemma {:induction false} ArrivalIsLost(s: System, b: Hint, steps: seq<Step>)
    requires Reachable(s) && b.node in s.taken
    requires IsRun(Next(s, Store(b)), steps) && NoFinish(steps, b.node)
    requires Enabled(After(Next(s, Store(b)), steps), Finish(b.node))
    ensures var u := After(Next(s, Store(b)), steps);
            var t := Next(u, Finish(b.node));
            && Reachable(t) && t.lost[b] > s.lost[b]
            && u.taken[b.node] == s.taken[b.node]
            && For(t.handoff.hints, b.node) == With(u.taken[b.node], u.sent[b.node], Failed)
  {
    var a := Next(s, Store(b));
    ReachableNext(s, Store(b));
    ReachableInv(a);
    assert a.arrived[b.node] == For(s.arrived, b.node) + [b];
    StaysArrived(a, b, steps);
    ReachableAfter(a, steps);
    ReachableNext(After(a, steps), Finish(b.node));
  }

  // ---- when hints are conserved ----

  /** No hint has been lost. */
  ghost predicate Conserved(s: System)
    requires Tracked(s)
  {
    forall h: Hint :: multiset(s.stored)[h] == PendingOf(s, h) + s.delivered[h] + s.expired[h]
  }

  /** A delivery to `node` is under way after `steps`. */
  predicate Delivering(steps: seq<Step>, node: string) {
    if steps == [] then false
    else
      match steps[|steps| - 1]
      case Begin(x) => x == node || Delivering(steps[..|steps| - 1], node)
      case Finish(x) => x != node && Delivering(steps[..|steps| - 1], node)
      case _ => Delivering(steps[..|steps| - 1], node)
  }

  /** The i-th step stores a hint for a node to which a delivery is under way. */
  predicate ArrivesDuring(steps: seq<Step>, i: nat)
    requires i < |steps|
  {
    steps[i].Store? && Delivering(steps[..i], steps[i].h.node)
  }

  predicate FinishesAfter(steps: seq<Step>, i: nat, node: string) {
    exists j :: i < j < |steps| && steps[j] == Finish(node)
  }

  /** No hint is stored while a delivery to its node is under way that finishes within the run. */
  ghost predicate Undisturbed(steps: seq<Step>) {
    forall i :: 0 <= i < |steps| && ArrivesDuring(steps, i) ==> !FinishesAfter(steps, i, steps[i].h.node)
  }

  /** A hint arrived during the delivery to `node` that is still under way. */
  ghost predicate Waiting(steps: seq<Step>, node: string) {
    exists i :: 0 <= i < |steps| && ArrivesDuring(steps, i) && steps[i].h.node == node
             && !FinishesAfter(steps, i, node)
  }

  lemma {:induction false} EarlierStep(steps: seq<Step>, step: Step, i: nat)
    requires i < |steps|
    ensures ArrivesDuring(steps + [step], i) <==> ArrivesDuring(steps, i)
    ensures forall node ::
              FinishesAfter(steps + [step], i, node) <==> FinishesAfter(steps, i, node) || step == Finish(node)
  {
    var all := steps + [step];
    assert all[..i] == steps[..i];
    forall node ensures FinishesAfter(all, i, node) <==> FinishesAfter(steps, i, node) || step == Finish(node) {
      if step == Finish(node) {
        assert all[|steps|] == Finish(node);
      }
      if FinishesAfter(steps, i, node) {
        var j :| i < j < |steps| && steps[j] == Finish(node);
        assert all[j] == Finish(node);
      }
    }
  }

  lemma {:induction false} LastStep(steps: seq<Step>, step: Step)
    ensures ArrivesDuring(steps + [step], |steps|) <==> step.Store? && Delivering(steps, step.h.node)
    ensures forall node :: !FinishesAfter(steps + [step], |steps|, node)
  {
    assert (steps + [step])[..|steps|] == steps;
  }

  lemma {:induction false} WaitingSnoc(steps: seq<Step>, step: Step, node: string)
    ensures Waiting(steps + [step], node)
       <==> || (step.Store? && step.h.node == node && Delivering(steps, node))
            || (step != Finish(node) && Waiting(steps, node))
  {
    var all := steps + [step];
    LastStep(steps, step);
    if Waiting(all, node) {
      var i :| 0 <= i < |all| && ArrivesDuring(all, i) && all[i].h.node == node && !FinishesAfter(all, i, node);
      if i < |steps| {
        EarlierStep(steps, step, i);
        assert ArrivesDuring(steps, i);
      }
    }
    if step != Finish(node) && Waiting(steps, node) {
      var i :| 0 <= i < |steps| && ArrivesDuring(steps, i) && steps[i].h.node == node
            && !FinishesAfter(steps, i, node);
      EarlierStep(steps, step, i);
      assert ArrivesDuring(all, i);
    }
    if step.Store? && step.h.node == node && Delivering(steps, node) {
      assert ArrivesDuring(all, |steps|);
    }
  }

  lemma {:induction false} UndisturbedSnoc(steps: seq<Step>, step: Step)
    ensures Undisturbed(steps + [step]) <==> Undisturbed(steps) && !(step.Finish? && Waiting(steps, step.node))
  {
    if !Undisturbed(steps) {
      DisturbedGrows(steps, step);
    } else if step.Finish? && Waiting(steps, step.node) {
      FinishDisturbs(steps, step);
    } else {
      forall i | 0 <= i < |steps + [step]| && ArrivesDuring(steps + [step], i)
        ensures !FinishesAfter(steps + [step], i, (steps + [step])[i].h.node)
      {
        NotDisturbedBy(steps, step, i);
      }
    }
  }

  lemma {:induction false} DisturbedGrows(steps: seq<Step>, step: Step)
    requires !Undisturbed(steps)
    ensures !Undisturbed(steps + [step])
  {
    var i :| 0 <= i < |steps| && ArrivesDuring(steps, i) && FinishesAfter(steps, i, steps[i].h.node);
    EarlierStep(steps, step, i);
    assert ArrivesDuring(steps + [step], i);
  }

  lemma {:induction false} FinishDisturbs(steps: seq<Step>, step: Step)
    requires step.Finish? && Waiting(steps, step.node)
    ensures !Undisturbed(steps + [step])
  {
    var i :| 0 <= i < |steps| && ArrivesDuring(steps, i) && steps[i].h.node == step.node
          && !FinishesAfter(steps, i, step.node);
    EarlierStep(steps, step, i);
    assert ArrivesDuring(steps + [step], i);
  }

  lemma {:induction false} NotDisturbedBy(steps: seq<Step>, step: Step, i: nat)
    requires Undisturbed(steps) && !(step.Finish? && Waiting(steps, step.node))
    requires i < |steps + [step]| && ArrivesDuring(steps + [step], i)
    ensures !FinishesAfter(steps + [step], i, (steps + [step])[i].h.node)
  {
    if i < |steps| {
      EarlierStep(steps, step, i);
      assert ArrivesDuring(steps, i);
    } else {
      LastStep(steps, step);
    }
  }

  /** A run is a run up to its last step, and that step. */
  lemma {:induction false} RunSplit(s: System, steps: seq<Step>)
    requires IsRun(s, steps) && steps != []
    ensures var n := |steps| - 1;
            && IsRun(s, steps[..n]) && Enabled(After(s, steps[..n]), steps[n])
            && After(s, steps) == Next(After(s, steps[..n]), steps[n])
    decreases steps
  {
    var n := |steps| - 1;
    if n == 0 {
      assert steps[..n] == [] && steps[1..] == [];
    } else {
      RunSplit(Next(s, steps[0]), steps[1..]);
      assert steps[..n][1..] == steps[1..][..n - 1];
    }
  }

  lemma {:induction false} DeliveringFollows(s: System, steps: seq<Step>, step: Step, all: seq<Step>, node: string)
    requires Enabled(s, step) && (node in s.taken <==> Delivering(steps, node)) && all == steps + [step]
    ensures node in Next(s, step).taken <==> Delivering(all, node)
  {
    assert all[..|all| - 1] == steps;
  }

  lemma {:induction false} ArrivedFollows(s: System, steps: seq<Step>, step: Step, all: seq<Step>, node: string)
    requires Tracked(s) && Enabled(s, step) && all == steps + [step]
    requires (node in s.taken <==> Delivering(steps, node)) && (For(s.arrived, node) != [] <==> Waiting(steps, node))
    ensures For(Next(s, step).arrived, node) != [] <==> Waiting(all, node)
  {
    WaitingSnoc(steps, step, node);
    assert node !in s.taken ==> For(s.arrived, node) == [];
  }

  lemma {:induction false} LostFollows(s: System, steps: seq<Step>, step: Step, all: seq<Step>)
    requires Enabled(s, step) && (s.lost == multiset{} <==> Undisturbed(steps)) && all == steps + [step]
    requires step.Finish? ==> (For(s.arrived, step.node) != [] <==> Waiting(steps, step.node))
    ensures Next(s, step).lost == multiset{} <==> Undisturbed(all)
  {
    UndisturbedSnoc(steps, step);
    if step.Finish? {
      EmptySum(s.lost, For(s.arrived, step.node));
    }
  }

  lemma {:induction false} EmptySum(a: multiset<Hint>, b: seq<Hint>)
    ensures a + multiset(b) == multiset{} <==> a == multiset{} && b == []
  {
    if b != [] {
      assert b[0] in multiset(b);
      assert (a + multiset(b))[b[0]] > 0;
    }
  }

  lemma {:induction false} RunTracked(start: System, steps: seq<Step>)
    requires IsInitial(start) && IsRun(start, steps)
    ensures Tracked(After(start, steps))
  {
    InitialInv(start);
    RunKeepsInv(start, steps);
  }

  lemma {:induction false} PrefixAndLast(steps: seq<Step>)
    requires steps != []
    ensures steps == steps[..|steps| - 1] + [steps[|steps| - 1]]
  {
  }

  /** The deliveries under way are those the run has begun and not finished. */
  lemma {:induction false} TakenFollows(start: System, steps: seq<Step>, node: string)
    requires IsInitial(start) && IsRun(start, steps)
    ensures node in After(start, steps).taken <==> Delivering(steps, node)
    decreases steps
  {
    if steps == [] {
    } else {
      var n := |steps| - 1;
      RunSplit(start, steps);
      TakenFollows(start, steps[..n], node);
      PrefixAndLast(steps);
      DeliveringFollows(After(start, steps[..n]), steps[..n], steps[n], steps, node);
    }
  }

  /** The state's bookkeeping of arrivals is what the run says. */
  lemma {:induction false} ArrivalsFollow(start: System, steps: seq<Step>, node: string)
    requires IsInitial(start) && IsRun(start, steps)
    ensures For(After(start, steps).arrived, node) != [] <==> Waiting(steps, node)
    decreases steps
  {
    if steps == [] {
    } else {
      var n := |steps| - 1;
      RunSplit(start, steps);
      ArrivalsFollow(start, steps[..n], node);
      TakenFollows(start, steps[..n], node);
      RunTracked(start, steps[..n]);
      PrefixAndLast(steps);
      ArrivedFollows(After(start, steps[..n]), steps[..n], steps[n], steps, node);
    }
  }

  /** Hints are lost exactly in the runs that are disturbed. */
  lemma {:induction false} LossFollows(start: System, steps: seq<Step>)
    requires IsInitial(start) && IsRun(start, steps)
    ensures After(start, steps).lost == multiset{} <==> Undisturbed(steps)
    decreases steps
  {
    if steps == [] {
    } else {
      var n := |steps| - 1;
      RunSplit(start, steps);
      LossFollows(start, steps[..n]);
      if steps[n].Finish? {
        ArrivalsFollow(start, steps[..n], steps[n].node);
      }
      PrefixAndLast(steps);
      LostFollows(After(start, steps[..n]), steps[..n], steps[n], steps);
    }
  }

  lemma {:induction false} LostIffNotConserved(s: System)
    requires Inv(s)
    ensures Conserved(s) <==> s.lost == multiset{}
  {
    forall h: Hint
      ensures multiset(s.stored)[h] == PendingOf(s, h) + s.delivered[h] + s.expired[h] <==> s.lost[h] == 0
    {
      assert Balanced(s, h);
    }
    if s.lost != multiset{} {
      var h :| h in s.lost;
      assert s.lost[h] > 0;
    }
  }

  /**
   * Over every run: hints are conserved if and only if none was stored while a delivery to its node
   * was under way that finished later in the run.
   */
  lemma {:induction false} ConservedIffUndisturbed(start: System, steps: seq<Step>)
    requires IsInitial(start) && IsRun(start, steps)
    ensures Tracked(After(start, steps)) && (Conserved(After(start, steps)) <==> Undisturbed(steps))
  {
    LossFollows(start, steps);
    InitialInv(start);
    RunKeepsInv(start, steps);
    LostIffNotConserved(After(start, steps));
  }

  // ---- a delivery without interruption ----

  /** The sending steps of a delivery, one per clock reading and answer. */
  function Sends(node: string, now: seq<int>, accepted: seq<bool>): seq<Step>
    requires |now| == |accepted|
    decreases now
  {
    if now == [] then []
    else
      var n := |now| - 1;
      Sends(node, now[..n], accepted[..n]) + [Send(node, now[n], accepted[n])]
  }

  /** What a delivery that has sent as many hints as there are outcomes has changed. */
  ghost predicate SentSoFar(s: System, t: System, node: string, outcomes: seq<Outcome>)
    requires node in s.taken && |outcomes| <= |s.taken[node]|
  {
    && t.taken == s.taken && t.sent == s.sent[node := outcomes] && t.arrived == s.arrived
    && t.handoff.hints == s.handoff.hints
    && t.handoff.records == s.handoff.records - Keys(With(s.taken[node], outcomes, Delivered))
  }

  lemma {:induction false} OneMoreSent(s: System, t: System, node: string, before: seq<Outcome>, o: Outcome)
    requires node in s.taken && |before| < |s.taken[node]| && SentSoFar(s, t, node, before)
    ensures CanSend(t, node) && SentSoFar(s, AfterSend(t, node, o), node, before + [o])
  {
    WithSnoc(s.taken[node], before, o);
  }

  lemma {:induction false} SendsAre(s: System, node: string, now: seq<int>, accepted: seq<bool>,
                                    outcomes: seq<Outcome>)
    requires node in s.taken && node in s.sent && s.sent[node] == [] && |outcomes| <= |s.taken[node]|
    requires Outcomes(s.taken[node][..|outcomes|], now, accepted, outcomes)
    ensures IsRun(s, Sends(node, now, accepted))
    ensures SentSoFar(s, After(s, Sends(node, now, accepted)), node, outcomes)
    decreases now
  {
    if outcomes == [] {
      assert Keys([]) == {} && s.handoff.records - {} == s.handoff.records;
      assert s.sent[node := outcomes] == s.sent;
    } else {
      var n := |outcomes| - 1;
      var before, steps := outcomes[..n], Sends(node, now[..n], accepted[..n]);
      SendsAre(s, node, now[..n], accepted[..n], before);
      OneMoreSent(s, After(s, steps), node, before, outcomes[n]);
      RunSnoc(s, steps, Send(node, now[n], accepted[n]));
      assert outcomes == before + [outcomes[n]];
    }
  }

  /** A delivery with nothing in between does what Deliver is specified to do. */
  lemma {:induction false} UninterruptedDelivery(s: System, node: string, now: seq<int>, accepted: seq<bool>,
                                                 outcomes: seq<Outcome>)
    requires Enabled(s, Begin(node)) && Outcomes(For(s.handoff.hints, node), now, accepted, outcomes)
    ensures var begun, sends := Next(s, Begin(node)), Sends(node, now, accepted);
            && IsRun(begun, sends) && Enabled(After(begun, sends), Finish(node))
            && Next(After(begun, sends), Finish(node)).handoff
               == Finished(s.handoff, node, For(s.handoff.hints, node), outcomes)
  {
    var begun := Next(s, Begin(node));
    assert begun.taken[node][..|outcomes|] == begun.taken[node];
    SendsAre(begun, node, now, accepted, outcomes);
  }

  /**
   * What the clock and the replica's answer do to the next hint of a delivery: three hours after its
   * creation it expires; before that it is delivered, and its record goes, if the replica accepts it;
   * if not, it stays open.
   */
  lemma {:induction false} SendDecides(s: System, node: string, now: int, accepted: bool)
    requires Tracked(s) && CanSend(s, node)
    ensures var h, t := s.taken[node][|s.sent[node]|], Next(s, Send(node, now, accepted));
            var late := now - h.storedAt > 10_800_000_000_000;
            var done: multiset<Hint> := if late || accepted then multiset{h} else multiset{};
            && t.expired == s.expired + (if late then multiset{h} else multiset{})
            && t.delivered == s.delivered + (if accepted && !late then multiset{h} else multiset{})
            && t.handoff.records == s.handoff.records - (if accepted && !late then {RecordKey(h)} else {})
            && t.handoff.hints == s.handoff.hints
            && Tracked(t) && multiset(Open(s, node)) == multiset(Open(t, node)) + done
  {
    SendOpen(s, node, OutcomeOf(s.taken[node][|s.sent[node]|], now, accepted));
    assert s.handoff.records - {} == s.handoff.records;
  }

  // ---- the persisted records ----

  /** No two stored hints share a record key, and none was stored twice. */
  ghost predicate UniqueKeys(stored: seq<Hint>) {
    forall i, j :: 0 <= i < j < |stored| ==> RecordKey(stored[i]) != RecordKey(stored[j])
  }

  /** The records are exactly the stored hints that have not been delivered. */
  ghost predicate Exact(records: map<string, Hint>, stored: seq<Hint>, delivered: multiset<Hint>) {
    && (forall k :: k in records ==> records[k] in stored && RecordKey(records[k]) == k && delivered[records[k]] == 0)
    && (forall h :: h in stored && delivered[h] == 0 ==> RecordKey(h) in records && records[RecordKey(h)] == h)
    && (forall h :: h in delivered ==> h in stored)
  }

  ghost predicate RecordsExact(s: System) {
    Exact(s.handoff.records, s.stored, s.delivered)
  }

  lemma {:induction false} KeyIsFresh(stored: seq<Hint>, x: Hint, h: Hint)
    requires UniqueKeys(stored + [x]) && h in stored
    ensures RecordKey(h) != RecordKey(x)
  {
    var i :| 0 <= i < |stored| && stored[i] == h;
    assert (stored + [x])[i] == h && (stored + [x])[|stored|] == x;
  }

  /** Hints for names without colons that differ in node, key or time have distinct record keys. */
  lemma {:induction false} DistinctHintsHaveUniqueKeys(stored: seq<Hint>)
    requires forall i :: 0 <= i < |stored| ==> NoColon(stored[i].node) && NoColon(stored[i].key)
    requires forall i, j :: 0 <= i < j < |stored| ==>
               stored[i].node != stored[j].node || stored[i].key != stored[j].key
               || stored[i].storedAt != stored[j].storedAt
    ensures UniqueKeys(stored)
  {
    forall i, j | 0 <= i < j < |stored| ensures RecordKey(stored[i]) != RecordKey(stored[j]) {
      if RecordKey(stored[i]) == RecordKey(stored[j]) {
        RecordKeyTells(stored[i], stored[j]);
      }
    }
  }

  lemma {:induction false} RecordAdded(records: map<string, Hint>, stored: seq<Hint>, delivered: multiset<Hint>,
                                       x: Hint)
    requires Exact(records, stored, delivered) && UniqueKeys(stored + [x])
    ensures Exact(records[RecordKey(x) := x], stored + [x], delivered)
  {
    forall h | h in stored ensures RecordKey(h) != RecordKey(x) {
      KeyIsFresh(stored, x, h);
    }
    assert delivered[x] == 0;
    var after := records[RecordKey(x) := x];
    forall h | h in stored + [x] && delivered[h] == 0 ensures RecordKey(h) in after && after[RecordKey(h)] == h {
      assert h == x || h in stored;
    }
  }

  lemma {:induction false} RecordRemoved(records: map<string, Hint>, stored: seq<Hint>, delivered: multiset<Hint>,
                                         x: Hint)
    requires Exact(records, stored, delivered) && UniqueKeys(stored) && x in stored
    ensures Exact(records - {RecordKey(x)}, stored, delivered + multiset{x})
  {
    forall h | h in stored && h != x ensures RecordKey(h) != RecordKey(x) {
      if RecordKey(h) == RecordKey(x) {
        SameKeySameHint(stored, h, x);
      }
    }
  }

  lemma {:induction false} SendKeepsRecords(s: System, node: string, o: Outcome)
    requires Inv(s) && RecordsExact(s) && UniqueKeys(s.stored) && CanSend(s, node)
    ensures RecordsExact(AfterSend(s, node, o))
  {
    if o == Delivered {
      var x := s.taken[node][|s.sent[node]|];
      PendingIsStored(s, node, x);
      RecordRemoved(s.handoff.records, s.stored, s.delivered, x);
    }
  }

  lemma {:induction false} SameKeySameHint(stored: seq<Hint>, a: Hint, b: Hint)
    requires UniqueKeys(stored) && a in stored && b in stored && RecordKey(a) == RecordKey(b)
    ensures a == b
  {
    var i :| 0 <= i < |stored| && stored[i] == a;
    var j :| 0 <= j < |stored| && stored[j] == b;
  }

  lemma {:induction false} PendingIsStored(s: System, node: string, h: Hint)
    requires Inv(s) && node in s.taken && h in s.taken[node]
    ensures h in s.stored
  {
    assert For(s.handoff.hints, node) == s.taken[node] + s.arrived[node];
    assert IsSubsequence(For(s.handoff.hints, node), s.stored);
    var at: seq<nat> :| Picks(at, For(s.handoff.hints, node), s.stored);
    var i :| 0 <= i < |s.taken[node]| && s.taken[node][i] == h;
    assert For(s.handoff.hints, node)[i] == h;
  }

  lemma {:induction false} StepExtendsStored(s: System, step: Step)
    requires Enabled(s, step)
    ensures s.stored <= Next(s, step).stored
  {
  }

  lemma {:induction false} RunExtendsStored(s: System, steps: seq<Step>)
    requires IsRun(s, steps)
    ensures s.stored <= After(s, steps).stored
    decreases steps
  {
    if steps == [] {
    } else {
      StepExtendsStored(s, steps[0]);
      RunExtendsStored(Next(s, steps[0]), steps[1..]);
    }
  }

  lemma {:induction false} UniquePrefix(a: seq<Hint>, b: seq<Hint>)
    requires a <= b && UniqueKeys(b)
    ensures UniqueKeys(a)
  {
    assert forall i :: 0 <= i < |a| ==> a[i] == b[i];
  }

  lemma {:induction false} RunKeepsRecords(s: System, steps: seq<Step>)
    requires Inv(s) && RecordsExact(s) && IsRun(s, steps) && UniqueKeys(After(s, steps).stored)
    ensures RecordsExact(After(s, steps))
    decreases steps
  {
    if steps == [] {
    } else {
      var t := Next(s, steps[0]);
      RunExtendsStored(t, steps[1..]);
      UniquePrefix(t.stored, After(s, steps).stored);
      StepExtendsStored(s, steps[0]);
      UniquePrefix(s.stored, t.stored);
      match steps[0] {
        case Store(x) => RecordAdded(s.handoff.records, s.stored, s.delivered, x);
        case Begin(_) =>
        case Send(node, now, accepted) =>
          SendKeepsRecords(s, node, OutcomeOf(s.taken[node][|s.sent[node]|], now, accepted));
        case Finish(_) =>
      }
      StepKeepsInv(s, steps[0]);
      RunKeepsRecords(t, steps[1..]);
    }
  }

  /**
   * If no two hints share a record key, the records persisted in local storage are, over every run,
   * exactly the hints that were stored and not delivered: the pending, the expired and the lost.
   */
  lemma {:induction false} RecordsAreUndelivered(s: System, h: Hint)
    requires Reachable(s) && UniqueKeys(s.stored)
    ensures Tracked(s)
    ensures RecordKey(h) in s.handoff.records && s.handoff.records[RecordKey(h)] == h
       <==> h in s.stored && PendingOf(s, h) + s.expired[h] + s.lost[h] > 0
  {
    var start: System, steps: seq<Step> :| IsInitial(start) && IsRun(start, steps) && After(start, steps) == s;
    InitialInv(start);
    RunKeepsRecords(start, steps);
    HintsAreAccountedFor(s, h, h.node);
    CountedOnce(s.stored, h);
  }

  lemma {:induction false} CountedOnce(stored: seq<Hint>, h: Hint)
    requires UniqueKeys(stored)
    ensures multiset(stored)[h] == if h in stored then 1 else 0
  {
    if stored == [] {
    } else {
      var n := |stored| - 1;
      CountedOnce(stored[..n], h);
      assert stored == stored[..n] + [stored[n]];
      if h in stored[..n] {
        var i :| 0 <= i < n && stored[..n][i] == h;
        assert stored[i] == h;
      }
    }
  }
}
