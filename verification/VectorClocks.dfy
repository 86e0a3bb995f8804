/** Vector clocks: increment, merge, and comparison by the pointwise order. */
module VectorClocks {
  import opened Common

  type U64 = n: int | 0 <= n < TWO_64
  type Clock = map<string, U64>

  /** How the first clock relates to the second. */
  datatype CausalOrder = Before | After | Concurrent | Equal

  /** A missing counter counts as zero. */
  function Count(c: Clock, id: string): U64 {
    if id in c then c[id] else 0
  }

  /** Every counter of `a` is at most that of `b`. */
  ghost predicate Leq(a: Clock, b: Clock) {
    forall id :: Count(a, id) <= Count(b, id)
  }

  ghost function Relation(a: Clock, b: Clock): CausalOrder {
    if Leq(a, b) then (if Leq(b, a) then Equal else Before)
    else if Leq(b, a) then After
    else Concurrent
  }

  function Incremented(c: Clock, id: string): Clock {
    c[id := (Count(c, id) + 1) % TWO_64]
  }

  function Merged(a: Clock, b: Clock): Clock {
    a + map id | id in b && b[id] > Count(a, id) :: b[id]
  }

  // ---- order laws ----

  lemma {:induction false} LeqTransitive(a: Clock, b: Clock, c: Clock)
    requires Leq(a, b) && Leq(b, c)
    ensures Leq(a, c)
  {
    forall id ensures Count(a, id) <= Count(c, id) {
      assert Count(a, id) <= Count(b, id) <= Count(c, id);
    }
  }

  /** Before is a strict order. */
  lemma {:induction false} BeforeTransitive(a: Clock, b: Clock, c: Clock)
    requires Relation(a, b) == Before && Relation(b, c) == Before
    ensures Relation(a, c) == Before
  {
    LeqTransitive(a, b, c);
    if Leq(c, a) {
      LeqTransitive(c, a, b);
    }
  }

  /** Swapping the operands swaps Before and After. */
  lemma {:induction false} RelationSwaps(a: Clock, b: Clock)
    ensures Relation(a, b) == Before <==> Relation(b, a) == After
    ensures Relation(a, b) == Concurrent <==> Relation(b, a) == Concurrent
    ensures Relation(a, b) == Equal <==> Relation(b, a) == Equal
  {
  }

  /** Merge takes the larger counter everywhere. */
  lemma {:induction false} MergeCounts(a: Clock, b: Clock, id: string)
    ensures Count(Merged(a, b), id) == if Count(a, id) < Count(b, id) then Count(b, id) else Count(a, id)
  {
  }

  /** Merge is the least upper bound: a clock is above the merge exactly when it is above both. */
  lemma {:induction false} MergeIsLeastUpperBound(a: Clock, b: Clock, c: Clock)
    ensures Leq(Merged(a, b), c) <==> Leq(a, c) && Leq(b, c)
    ensures Leq(a, Merged(a, b)) && Leq(b, Merged(a, b))
  {
    forall id ensures Count(a, id) <= Count(Merged(a, b), id) && Count(b, id) <= Count(Merged(a, b), id) {
      MergeCounts(a, b, id);
    }
    if Leq(Merged(a, b), c) {
      LeqTransitive(a, Merged(a, b), c);
      LeqTransitive(b, Merged(a, b), c);
    }
    if Leq(a, c) && Leq(b, c) {
      forall id ensures Count(Merged(a, b), id) <= Count(c, id) {
        MergeCounts(a, b, id);
      }
    }
  }

  /** Incrementing moves forward exactly when the 64-bit counter does not wrap. */
  lemma {:induction false} IncrementMovesForwardIff(c: Clock, id: string)
    ensures Relation(c, Incremented(c, id)) == Before <==> Count(c, id) < TWO_64 - 1
    ensures Count(c, id) == TWO_64 - 1 ==> Relation(c, Incremented(c, id)) == After
  {
    var next := Incremented(c, id);
    assert forall x :: x != id ==> Count(next, x) == Count(c, x);
    if Count(c, id) < TWO_64 - 1 {
      assert Count(next, id) == Count(c, id) + 1;
      assert !Leq(next, c);
    } else {
      assert Count(next, id) == 0;
      assert !Leq(c, next);
    }
  }

  // ---- the operations ----

  method Copy(c: Clock) returns (out: Clock)
    ensures out == c
  {
    out := map[];
    var todo := c.Keys;
    while todo != {}
      invariant todo <= c.Keys && out.Keys == c.Keys - todo
      invariant forall id :: id in out ==> out[id] == c[id]
      decreases |todo|
    {
      var id :| id in todo;
      out := out[id := c[id]];
      todo := todo - {id};
    }
  }

  method Increment(c: Clock, id: string) returns (next: Clock)
    ensures next == Incremented(c, id)
  {
    next := Copy(c);
    var n := Count(next, id) + 1;
    next := next[id := if n == TWO_64 then 0 else n];
  }

  /** The merge restricted to the counters in `done`. */
  function MergedOver(a: Clock, b: Clock, done: set<string>): Clock {
    a + map id | id in b && id in done && b[id] > Count(a, id) :: b[id]
  }

  lemma {:induction false} MergeStep(a: Clock, b: Clock, done: set<string>, id: string)
    requires id in b && id !in done
    ensures var m := MergedOver(a, b, done);
            MergedOver(a, b, done + {id}) == if b[id] > Count(m, id) then m[id := b[id]] else m
  {
    var m := MergedOver(a, b, done);
    assert Count(m, id) == Count(a, id);
  }

  lemma {:induction false} MergeEnds(a: Clock, b: Clock)
    ensures MergedOver(a, b, {}) == a && MergedOver(a, b, b.Keys) == Merged(a, b)
  {
  }

  method Merge(a: Clock, b: Clock) returns (merged: Clock)
    ensures merged == Merged(a, b)
  {
    merged := Copy(a);
    var todo := b.Keys;
    MergeEnds(a, b);
    assert b.Keys - todo == {};
    while todo != {}
      invariant todo <= b.Keys && merged == MergedOver(a, b, b.Keys - todo)
      decreases |todo|
    {
      var id :| id in todo;
      MergeStep(a, b, b.Keys - todo, id);
      assert b.Keys - (todo - {id}) == b.Keys - todo + {id};
      if b[id] > Count(merged, id) {
        merged := merged[id := b[id]];
      }
      todo := todo - {id};
    }
    assert b.Keys - todo == b.Keys;
  }

  /** The loop over both key sets decides the pointwise order. */
  method Compare(a: Clock, b: Clock) returns (r: CausalOrder)
    ensures r == Relation(a, b)
  {
    var aLess, bLess := false, false;
    var todo := a.Keys + b.Keys;
    while todo != {}
      invariant todo <= a.Keys + b.Keys
      invariant aLess <==> exists id :: id in a.Keys + b.Keys - todo && Count(a, id) < Count(b, id)
      invariant bLess <==> exists id :: id in a.Keys + b.Keys - todo && Count(b, id) < Count(a, id)
      decreases |todo|
    {
      var id :| id in todo;
      var x, y := Count(a, id), Count(b, id);
      if x < y {
        aLess := true;
      } else if x > y {
        bLess := true;
      }
      todo := todo - {id};
    }
    assert aLess <==> !Leq(b, a);
    assert bLess <==> !Leq(a, b);
    r := if !aLess && !bLess then Equal else if aLess && !bLess then Before else if !aLess then After else Concurrent;
  }
}
