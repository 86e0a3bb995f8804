/**
 * Hinted handoff: writes kept for unreachable replicas and delivered later. Runs interleave new
 * hints with a delivery in progress, which reads and replaces a node's hints in two separate steps.
 */
module Hints {
  import opened Common

  datatype Hint = Hint(node: string, key: string, value: Bytes, storedAt: int)

  type Pending = map<string, seq<Hint>>

  /** Three hours in nanoseconds. */
  const HINT_TTL := 3 * 3600 * 1_000_000_000
  const HINT_KEY_PREFIX := "__hint__"

  /** The key under which a hint is persisted; nothing escapes the colons. */
  function RecordKey(h: Hint): string {
    HINT_KEY_PREFIX + h.node + ":" + h.key + ":" + Time(h.storedAt)
  }

  predicate NoColon(s: string) {
    forall i :: 0 <= i < |s| ==> s[i] != ':'
  }

  /** The first colon splits a string in one way only. */
  lemma {:induction false} SplitAtColon(a: string, x: string, b: string, y: string)
    requires a + ":" + x == b + ":" + y && NoColon(a) && NoColon(b)
    ensures a == b && x == y
  {
    var s := a + ":" + x;
    assert forall i :: 0 <= i < |a| ==> s[i] == a[i];
    assert forall i :: 0 <= i < |b| ==> s[i] == b[i];
    assert s[|a|] == ':' && s[|b|] == ':';
    assert a == s[..|a|] == b;
    assert x == s[|a| + 1..] == y;
  }

  function Time(t: int): string {
    if t < 0 then "-" + Decimal(-t) else Decimal(t)
  }

  lemma {:induction false} TimeReads(t: int, u: int)
    requires Time(t) == Time(u)
    ensures t == u
  {
    DecimalReadsBack(if t < 0 then -t else t);
    DecimalReadsBack(if u < 0 then -u else u);
    if t < 0 {
      assert Time(t)[0] == '-' && Time(t)[1..] == Decimal(-t);
    }
    if u < 0 {
      assert Time(u)[0] == '-' && Time(u)[1..] == Decimal(-u);
    }
  }

  /** What stands behind the prefix of a record key. */
  lemma {:induction false} BehindPrefix(h: Hint)
    ensures |RecordKey(h)| >= 8 && RecordKey(h)[8..] == h.node + ":" + (h.key + ":" + Time(h.storedAt))
  {
    var rest := h.node + ":" + (h.key + ":" + Time(h.storedAt));
    assert RecordKey(h) == HINT_KEY_PREFIX + rest;
    TailOf(HINT_KEY_PREFIX, rest);
  }

  lemma {:induction false} TailOf(a: string, b: string)
    ensures (a + b)[|a|..] == b
  {
  }

  /** Node and key names without colons make the record key tell node, key and time of a hint. */
  lemma {:induction false} RecordKeyTells(h: Hint, g: Hint)
    requires RecordKey(h) == RecordKey(g)
    requires NoColon(h.node) && NoColon(g.node) && NoColon(h.key) && NoColon(g.key)
    ensures h.node == g.node && h.key == g.key && h.storedAt == g.storedAt
  {
    BehindPrefix(h);
    BehindPrefix(g);
    SplitAtColon(h.node, h.key + ":" + Time(h.storedAt), g.node, g.key + ":" + Time(g.storedAt));
    SplitAtColon(h.key, Time(h.storedAt), g.key, Time(g.storedAt));
    TimeReads(h.storedAt, g.storedAt);
  }

  /** With a colon in a name two different hints can share a record key. */
  lemma {:induction false} ColonConfusesKeys(a: string, b: string, c: string, value: Bytes, t: int)
    ensures RecordKey(Hint(a + ":" + b, c, value, t)) == RecordKey(Hint(a, b + ":" + c, value, t))
  {
    var time := Time(t);
    assert a + ":" + b + ":" + c + ":" + time == a + ":" + (b + ":" + c) + ":" + time;
  }

  function For(hints: Pending, node: string): seq<Hint> {
    if node in hints then hints[node] else []
  }

  // ---- one delivery ----

  datatype Outcome = Expired | Delivered | Failed

  /** What happens to a hint when its turn comes at time `now` and the replica accepts it or not. */
  function OutcomeOf(h: Hint, now: int, accepted: bool): Outcome {
    if now - h.storedAt > HINT_TTL then Expired else if accepted then Delivered else Failed
  }

  /** Of the first hints, one per outcome, those with the given outcome, in order. */
  function With(hints: seq<Hint>, outcomes: seq<Outcome>, o: Outcome): seq<Hint>
    requires |outcomes| <= |hints|
    decreases outcomes
  {
    if outcomes == [] then []
    else
      var n := |outcomes| - 1;
      var before := With(hints, outcomes[..n], o);
      if outcomes[n] == o then before + [hints[n]] else before
  }

  /** Every hint of a delivery is exactly one of expired, delivered and failed. */
  lemma {:induction false} OutcomesPartition(hints: seq<Hint>, outcomes: seq<Outcome>)
    requires |outcomes| <= |hints|
    ensures multiset(hints[..|outcomes|])
         == multiset(With(hints, outcomes, Expired)) + multiset(With(hints, outcomes, Delivered))
            + multiset(With(hints, outcomes, Failed))
    decreases outcomes
  {
    if outcomes == [] {
    } else {
      var n := |outcomes| - 1;
      OutcomesPartition(hints, outcomes[..n]);
      assert hints[..n + 1] == hints[..n] + [hints[n]];
    }
  }

  lemma {:induction false} WithMembers(hints: seq<Hint>, outcomes: seq<Outcome>, o: Outcome)
    requires |outcomes| <= |hints|
    ensures forall h :: h in With(hints, outcomes, o) ==> h in hints
    decreases outcomes
  {
    if outcomes == [] {
    } else {
      WithMembers(hints, outcomes[..|outcomes| - 1], o);
    }
  }

  /** `kept` picks positions of `all` in increasing order. */
  ghost predicate IsSubsequence(kept: seq<Hint>, all: seq<Hint>) {
    exists at: seq<nat> :: Picks(at, kept, all)
  }

  ghost predicate Picks(at: seq<nat>, kept: seq<Hint>, all: seq<Hint>) {
    && |at| == |kept|
    && (forall i, j :: 0 <= i < j < |at| ==> at[i] < at[j])
    && (forall i :: 0 <= i < |at| ==> at[i] < |all| && all[at[i]] == kept[i])
  }

  /** The hints that stay pending keep their order. */
  lemma {:induction false} WithKeepsOrder(hints: seq<Hint>, outcomes: seq<Outcome>, o: Outcome) returns (at: seq<nat>)
    requires |outcomes| <= |hints|
    ensures Picks(at, With(hints, outcomes, o), hints) && forall i :: 0 <= i < |at| ==> at[i] < |outcomes|
    ensures forall i: nat :: i in at <==> i < |outcomes| && outcomes[i] == o
    decreases outcomes
  {
    if outcomes == [] {
      at := [];
    } else {
      var n := |outcomes| - 1;
      at := WithKeepsOrder(hints, outcomes[..n], o);
      if outcomes[n] == o {
        PicksSnoc(at, With(hints, outcomes[..n], o), hints, n);
        at := at + [n];
      }
    }
  }

  lemma {:induction false} PicksSnoc(at: seq<nat>, kept: seq<Hint>, all: seq<Hint>, n: nat)
    requires Picks(at, kept, all) && n < |all| && forall i :: 0 <= i < |at| ==> at[i] < n
    ensures Picks(at + [n], kept + [all[n]], all)
  {
  }

  /** The replica refused the hint within three hours of its creation. */
  predicate StillOwed(h: Hint, now: int, accepted: bool) {
    !accepted && now - h.storedAt <= 10_800_000_000_000
  }

  /** The replica accepted the hint within three hours of its creation. */
  predicate HasArrived(h: Hint, now: int, accepted: bool) {
    accepted && now - h.storedAt <= 10_800_000_000_000
  }

  /** The outcomes stand for the clock and the replica's answers. */
  predicate Outcomes(hints: seq<Hint>, now: seq<int>, accepted: seq<bool>, outcomes: seq<Outcome>) {
    && |now| == |accepted| == |outcomes| == |hints|
    && forall i :: 0 <= i < |outcomes| ==> outcomes[i] == OutcomeOf(hints[i], now[i], accepted[i])
  }

  /** What a delivery leaves pending, and whose records it removes, by the clock and the answers alone. */
  lemma {:induction false} DeliveryDecides(hints: seq<Hint>, now: seq<int>, accepted: seq<bool>, outcomes: seq<Outcome>)
    returns (at: seq<nat>)
    requires Outcomes(hints, now, accepted, outcomes)
    ensures Picks(at, With(hints, outcomes, Failed), hints)
    ensures forall i: nat :: i in at <==> i < |hints| && StillOwed(hints[i], now[i], accepted[i])
    ensures Keys(With(hints, outcomes, Delivered))
         == set i | 0 <= i < |hints| && HasArrived(hints[i], now[i], accepted[i]) :: RecordKey(hints[i])
  {
    at := WithKeepsOrder(hints, outcomes, Failed);
    var sent := With(hints, outcomes, Delivered);
    var to := WithKeepsOrder(hints, outcomes, Delivered);
    forall k | k in Keys(sent)
      ensures exists i :: 0 <= i < |hints| && HasArrived(hints[i], now[i], accepted[i]) && RecordKey(hints[i]) == k
    {
      var j :| 0 <= j < |sent| && RecordKey(sent[j]) == k;
      assert to[j] in to && hints[to[j]] == sent[j];
    }
    forall i | 0 <= i < |hints| && HasArrived(hints[i], now[i], accepted[i]) ensures RecordKey(hints[i]) in Keys(sent) {
      assert i in to;
      var j :| 0 <= j < |to| && to[j] == i;
      assert sent[j] == hints[i];
    }
  }

  // ---- the handoff state ----

  datatype Handoff = Handoff(hints: Pending, records: map<string, Hint>)

  function Stored(s: Handoff, h: Hint): Handoff {
    Handoff(s.hints[h.node := For(s.hints, h.node) + [h]], s.records[RecordKey(h) := h])
  }

  function Keys(hints: seq<Hint>): set<string> {
    set i | 0 <= i < |hints| :: RecordKey(hints[i])
  }

  /** The state after a delivery to `node` of the hints `taken` at its start. */
  function Finished(s: Handoff, node: string, taken: seq<Hint>, outcomes: seq<Outcome>): Handoff
    requires |taken| == |outcomes|
  {
    var remaining := With(taken, outcomes, Failed);
    Handoff(if remaining == [] then s.hints - {node} else s.hints[node := remaining],
            s.records - Keys(With(taken, outcomes, Delivered)))
  }

  class HintedHandoff {
    var hints: Pending
    var records: map<string, Hint>

    ghost function State(): Handoff
      reads this
    {
      Handoff(hints, records)
    }

    /** A node's hints are all meant for that node. */
    ghost predicate Valid()
      reads this
    {
      Addressed(hints)
    }

    constructor ()
      ensures Valid() && State() == Handoff(map[], map[])
    {
      hints, records := map[], map[];
    }

    method Store(intendedNode: string, key: string, value: Bytes, now: int)
      requires Valid()
      modifies this
      ensures Valid() && State() == Stored(old(State()), Hint(intendedNode, key, value, now))
    {
      var hint := Hint(intendedNode, key, value, now);
      hints := hints[intendedNode := For(hints, intendedNode) + [hint]];
      records := records[RecordKey(hint) := hint];
    }

    /** The sending loop of Deliver. */
    method SendAll(pending: seq<Hint>, nodeID: string, now: seq<int>, accepted: seq<bool>)
      returns (remaining: seq<Hint>, ghost outcomes: seq<Outcome>)
      requires |now| == |accepted| == |pending| && forall h :: h in pending ==> h.node == nodeID
      modifies this`records
      ensures |outcomes| == |pending| && remaining == With(pending, outcomes, Failed)
      ensures forall i :: 0 <= i < |outcomes| ==> outcomes[i] == OutcomeOf(pending[i], now[i], accepted[i])
      ensures records == old(records) - Keys(With(pending, outcomes, Delivered))
    {
      outcomes, remaining := [], [];
      for i := 0 to |pending|
        invariant |outcomes| == i
        invariant forall j :: 0 <= j < i ==> outcomes[j] == OutcomeOf(pending[j], now[j], accepted[j])
        invariant remaining == With(pending, outcomes, Failed)
        invariant records == old(records) - Keys(With(pending, outcomes, Delivered))
      {
        var hint := pending[i];
        ghost var o := OutcomeOf(hint, now[i], accepted[i]);
        WithSnoc(pending, outcomes, o);
        outcomes := outcomes + [o];
        if now[i] - hint.storedAt > HINT_TTL {
          continue;
        }
        if !accepted[i] {
          remaining := remaining + [hint];
        } else {
          records := records - {RecordKey(Hint(nodeID, hint.key, hint.value, hint.storedAt))};
        }
      }
    }

    /**
     * Deliver with nothing in between; `now` and `accepted` give the clock and the replica's answer per
     * hint. What was refused in time stays pending in its order, what was accepted in time loses its
     * record, and nothing else changes.
     */
    method Deliver(nodeID: string, now: seq<int>, accepted: seq<bool>) returns (ghost outcomes: seq<Outcome>)
      requires Valid() && |now| == |accepted| == |For(hints, nodeID)|
      modifies this
      ensures Valid() && |outcomes| == |old(For(hints, nodeID))|
      ensures forall i :: 0 <= i < |outcomes| ==>
                outcomes[i] == OutcomeOf(old(For(hints, nodeID))[i], now[i], accepted[i])
      ensures State() == if old(For(hints, nodeID)) == [] then old(State())
                         else Finished(old(State()), nodeID, old(For(hints, nodeID)), outcomes)
      ensures var was := old(For(hints, nodeID));
              && (exists at: seq<nat> ::
                   && Picks(at, For(hints, nodeID), was)
                   && forall i: nat :: i in at <==> i < |was| && StillOwed(was[i], now[i], accepted[i]))
              && records == old(records)
                   - (set i | 0 <= i < |was| && HasArrived(was[i], now[i], accepted[i]) :: RecordKey(was[i]))
      ensures forall x :: x != nodeID ==> For(hints, x) == old(For(hints, x))
    {
      var pending := For(hints, nodeID);
      ghost var before := State();
      outcomes := [];
      if |pending| == 0 {
        assert Picks([], For(hints, nodeID), pending);
        return;
      }
      var remaining;
      remaining, outcomes := SendAll(pending, nodeID, now, accepted);
      if |remaining| == 0 {
        hints := hints - {nodeID};
      } else {
        hints := hints[nodeID := remaining];
      }
      FinishedAddressed(before, nodeID, pending, outcomes);
      ghost var at := DeliveryDecides(pending, now, accepted, outcomes);
      assert For(hints, nodeID) == remaining;
    }
  }

  ghost predicate Addressed(hints: Pending) {
    forall node, i :: node in hints && 0 <= i < |hints[node]| ==> hints[node][i].node == node
  }

  lemma {:induction false} FinishedAddressed(s: Handoff, node: string, taken: seq<Hint>, outcomes: seq<Outcome>)
    requires Addressed(s.hints) && |taken| == |outcomes| && forall h :: h in taken ==> h.node == node
    ensures Addressed(Finished(s, node, taken, outcomes).hints)
  {
    WithMembers(taken, outcomes, Failed);
    var remaining := With(taken, outcomes, Failed);
    var t: Pending := Finished(s, node, taken, outcomes).hints;
    forall x, i | x in t && 0 <= i < |t[x]| ensures t[x][i].node == x {
      if x == node {
        assert t[x][i] == remaining[i] && remaining[i] in remaining;
      } else {
        assert t[x] == s.hints[x];
      }
    }
  }

  lemma {:induction false} WithOne(hints: seq<Hint>, outcomes: seq<Outcome>, o: Outcome, x: Outcome)
    requires |outcomes| < |hints|
    ensures var before := With(hints, outcomes, x);
            With(hints, outcomes + [o], x) == if o == x then before + [hints[|outcomes|]] else before
  {
    assert (outcomes + [o])[..|outcomes|] == outcomes;
  }

  lemma {:induction false} WithSnoc(hints: seq<Hint>, outcomes: seq<Outcome>, o: Outcome)
    requires |outcomes| < |hints|
    ensures var before := With(hints, outcomes, Failed);
            With(hints, outcomes + [o], Failed) == if o == Failed then before + [hints[|outcomes|]] else before
    ensures var before := Keys(With(hints, outcomes, Delivered));
            Keys(With(hints, outcomes + [o], Delivered))
            == if o == Delivered then before + {RecordKey(hints[|outcomes|])} else before
  {
    WithOne(hints, outcomes, o, Failed);
    WithOne(hints, outcomes, o, Delivered);
    if o == Delivered {
      KeysSnoc(With(hints, outcomes, Delivered), hints[|outcomes|]);
    }
  }

  lemma {:induction false} KeysSnoc(hints: seq<Hint>, h: Hint)
    ensures Keys(hints + [h]) == Keys(hints) + {RecordKey(h)}
  {
    var all := hints + [h];
    forall k | k in Keys(all) ensures k in Keys(hints) + {RecordKey(h)} {
      var i :| 0 <= i < |all| && RecordKey(all[i]) == k;
      assert i < |hints| ==> RecordKey(hints[i]) == k;
    }
    forall k | k in Keys(hints) ensures k in Keys(all) {
      var i :| 0 <= i < |hints| && RecordKey(hints[i]) == k;
      assert RecordKey(all[i]) == k;
    }
    assert RecordKey(all[|hints|]) == RecordKey(h);
  }
}
