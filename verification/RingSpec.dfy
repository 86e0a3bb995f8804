/** The consistent hash ring as a value: placement, membership changes, and what they move. */
module RingSpec {
  import opened Common
  import opened Ordering

  type Hash = h: int | 0 <= h < TWO_32

  datatype Node = Node(id: string, address: string)

  /** The sorted points with repetitions, who owns each point, and the members by ID. */
  datatype RingState = RingState(points: seq<Hash>, owners: map<Hash, Node>, nodes: map<string, Node>)

  predicate HashLeq(a: Hash, b: Hash) {
    a <= b
  }

  ghost predicate Ascending(points: seq<Hash>) {
    SortedBy(points, HashLeq)
  }

  lemma {:induction false} HashesTotallyOrdered()
    ensures TotalPreorder(HashLeq)
  {
  }

  // ---- membership changes ----

  function NotIn(mine: seq<Hash>): Hash -> bool {
    h => h !in mine
  }

  function NotNamed(x: string): Node -> bool {
    (n: Node) => n.id != x
  }

  function OwnAll(owners: map<Hash, Node>, mine: seq<Hash>, node: Node): map<Hash, Node> {
    owners + (map h | h in mine :: node)
  }

  /** The ring after AddNode, whose virtual nodes hash to `mine`. */
  function Added(s: RingState, node: Node, mine: seq<Hash>): RingState {
    RingState(Sort(s.points + mine, HashLeq), OwnAll(s.owners, mine, node), s.nodes[node.id := node])
  }

  /** The points on the ring that RemoveNode takes out. */
  function Gone(points: seq<Hash>, mine: seq<Hash>): set<Hash> {
    set h | h in points && h in mine
  }

  /** The ring after RemoveNode of a member. */
  function Removed(s: RingState, id: string, mine: seq<Hash>): RingState {
    RingState(Filter(s.points, NotIn(mine)),
              s.owners - Gone(s.points, mine),
              s.nodes - {id})
  }

  datatype Change = Add(id: string, address: string) | Remove(id: string)

  /** One membership change; removing a node that is not there is an error and changes nothing. */
  function Changed(s: RingState, c: Change, pts: string -> seq<Hash>): RingState {
    match c
    case Add(id, address) => Added(s, Node(id, address), pts(id))
    case Remove(id) => if id in s.nodes then Removed(s, id, pts(id)) else s
  }

  function RingAfter(changes: seq<Change>, pts: string -> seq<Hash>): RingState {
    if changes == [] then RingState([], map[], map[])
    else
      var n := |changes| - 1;
      Changed(RingAfter(changes[..n], pts), changes[n], pts)
  }

  // ---- what every run keeps, collisions or not ----

  /** The points are sorted and are exactly the hashes that have an owner. */
  ghost predicate Consistent(s: RingState) {
    Ascending(s.points) && forall h: Hash :: h in s.points <==> h in s.owners
  }

  lemma {:induction false} SortMembers(s: seq<Hash>, h: Hash)
    ensures h in Sort(s, HashLeq) <==> h in s
    ensures Ascending(Sort(s, HashLeq))
  {
    HashesTotallyOrdered();
    SortKeeps(s, HashLeq);
    assert h in multiset(Sort(s, HashLeq)) <==> h in multiset(s);
  }

  lemma {:induction false} FilterAscending(points: seq<Hash>, keep: Hash -> bool)
    requires Ascending(points)
    ensures Ascending(Filter(points, keep))
  {
    if points == [] {
    } else {
      var rest := Filter(points[1..], keep);
      FilterAscending(points[1..], keep);
      forall j | 0 <= j < |rest| ensures points[0] <= rest[j] {
        FilterMember(points[1..], keep, rest[j]);
        assert rest[j] in rest;
        var i :| 0 <= i < |points[1..]| && points[1..][i] == rest[j];
        assert HashLeq(points[0], points[i + 1]);
      }
    }
  }

  lemma {:induction false} ChangeKeepsConsistent(s: RingState, c: Change, pts: string -> seq<Hash>)
    requires Consistent(s)
    ensures Consistent(Changed(s, c, pts))
  {
    var t := Changed(s, c, pts);
    match c
    case Add(id, address) =>
      SortMembers(s.points + pts(id), 0);
      forall h: Hash ensures h in t.points <==> h in t.owners {
        SortMembers(s.points + pts(id), h);
      }
    case Remove(id) =>
      if id in s.nodes {
        var keep := NotIn(pts(id));
        FilterAscending(s.points, keep);
        forall h: Hash ensures h in t.points <==> h in t.owners {
          FilterMember(s.points, keep, h);
        }
      }
  }

  /** Every run of membership changes keeps the ring consistent, even with hash collisions and repeated adds. */
  lemma {:induction false} RunIsConsistent(changes: seq<Change>, pts: string -> seq<Hash>)
    ensures Consistent(RingAfter(changes, pts))
  {
    if changes == [] {
    } else {
      var n := |changes| - 1;
      RunIsConsistent(changes[..n], pts);
      ChangeKeepsConsistent(RingAfter(changes[..n], pts), changes[n], pts);
    }
  }

  // ---- going clockwise ----

  /** All points in clockwise order from `h`. */
  function Clockwise(points: seq<Hash>, h: Hash): seq<Hash> {
    Filter(points, (p: Hash) => p >= h) + Filter(points, (p: Hash) => p < h)
  }

  /** How far clockwise `p` lies from `h` on the circle of 2^32 hashes. */
  function Distance(h: Hash, p: Hash): nat {
    if p >= h then p - h else p - h + TWO_32
  }

  lemma {:induction false} ClockwiseMember(points: seq<Hash>, h: Hash, p: Hash)
    ensures p in Clockwise(points, h) <==> p in points
  {
    FilterMember(points, (q: Hash) => q >= h, p);
    FilterMember(points, (q: Hash) => q < h, p);
  }

  /** `idx` splits the sorted points where the search for `h` stops. */
  predicate SplitsAt(points: seq<Hash>, h: Hash, idx: nat) {
    && idx <= |points|
    && (forall i :: 0 <= i < idx ==> points[i] < h)
    && (forall i :: idx <= i < |points| ==> points[i] >= h)
  }

  /** Going clockwise is going round the array from the index that the search finds. */
  lemma {:induction false} ClockwiseIsRotation(points: seq<Hash>, h: Hash, idx: nat)
    requires SplitsAt(points, h, idx)
    ensures Clockwise(points, h) == points[idx..] + points[..idx]
  {
    var up, below := (p: Hash) => p >= h, (p: Hash) => p < h;
    assert points == points[..idx] + points[idx..];
    assert Filter(points, up) == points[idx..] by {
      FilterConcat(points[..idx], points[idx..], up);
      FilterNone(points[..idx], up);
      FilterAll(points[idx..], up);
    }
    assert Filter(points, below) == points[..idx] by {
      FilterConcat(points[..idx], points[idx..], below);
      FilterAll(points[..idx], below);
      FilterNone(points[idx..], below);
    }
  }

  /** The first point clockwise is the nearest one. */
  lemma {:induction false} FirstIsNearest(points: seq<Hash>, h: Hash, p: Hash)
    requires Ascending(points) && p in points
    ensures Clockwise(points, h) != []
    ensures Clockwise(points, h)[0] in points && Distance(h, Clockwise(points, h)[0]) <= Distance(h, p)
  {
    var up, below := (q: Hash) => q >= h, (q: Hash) => q < h;
    var a, b := Filter(points, up), Filter(points, below);
    ClockwiseMember(points, h, p);
    FilterMember(points, up, p);
    FilterMember(points, below, p);
    FilterAscending(points, up);
    FilterAscending(points, below);
    var first := Clockwise(points, h)[0];
    ClockwiseMember(points, h, first);
    assert first in Clockwise(points, h);
    if a != [] {
      assert a[0] in a;
      FilterMember(points, up, a[0]);
      if p in a {
        LeastFirst(a, p);
      }
    } else {
      LeastFirst(b, p);
    }
  }

  /** Going clockwise, every point is farther than the one before, or as far. */
  lemma {:induction false} ClockwiseByDistance(points: seq<Hash>, h: Hash, i: nat, j: nat)
    requires Ascending(points) && i < j < |Clockwise(points, h)|
    ensures Distance(h, Clockwise(points, h)[i]) <= Distance(h, Clockwise(points, h)[j])
  {
    var up, below := (q: Hash) => q >= h, (q: Hash) => q < h;
    var a, b := Filter(points, up), Filter(points, below);
    var p, q := Clockwise(points, h)[i], Clockwise(points, h)[j];
    FilterAscending(points, up);
    FilterAscending(points, below);
    if i < |a| {
      assert p in a;
    } else {
      assert p == b[i - |a|] && p in b;
    }
    if j < |a| {
      assert q in a;
    } else {
      assert q == b[j - |a|] && q in b;
    }
    FilterMember(points, up, p);
    FilterMember(points, below, p);
    FilterMember(points, up, q);
    FilterMember(points, below, q);
  }

  /** Each point occurs as often as on the ring. */
  lemma {:induction false} ClockwiseCounts(points: seq<Hash>, h: Hash)
    ensures multiset(Clockwise(points, h)) == multiset(points)
  {
    if points == [] {
    } else {
      var rest := points[1..];
      assert points == [points[0]] + rest;
      ClockwiseCounts(rest, h);
      assert multiset(Clockwise(points, h)) == multiset(Clockwise(rest, h)) + multiset{points[0]};
    }
  }

  lemma {:induction false} LeastFirst(points: seq<Hash>, p: Hash)
    requires Ascending(points) && p in points
    ensures points[0] <= p
  {
    var i :| 0 <= i < |points| && points[i] == p;
    if i > 0 {
      assert HashLeq(points[0], points[i]);
    }
  }

  /** The node responsible for hash `h`. */
  function OwnerOf(s: RingState, h: Hash): Node
    requires Consistent(s) && s.points != []
  {
    FirstIsNearest(s.points, h, s.points[0]);
    s.owners[Clockwise(s.points, h)[0]]
  }

  /** The owner is the owner of the clockwise nearest point. */
  lemma {:induction false} OwnerIsNearest(s: RingState, h: Hash, p: Hash)
    requires Consistent(s) && p in s.points
    requires forall q :: q in s.points ==> Distance(h, p) <= Distance(h, q)
    ensures OwnerOf(s, h) == s.owners[p]
  {
    FirstIsNearest(s.points, h, p);
  }

  /** Adding a node, with or without collisions, moves a key only to the new node. */
  lemma {:induction false} AddMovesOnlyToNewNode(s: RingState, node: Node, mine: seq<Hash>, h: Hash)
    requires Consistent(s) && s.points != [] && Consistent(Added(s, node, mine)) && Added(s, node, mine).points != []
    ensures OwnerOf(Added(s, node, mine), h) == node || OwnerOf(Added(s, node, mine), h) == OwnerOf(s, h)
  {
    var t := Added(s, node, mine);
    FirstIsNearest(t.points, h, t.points[0]);
    var p := Clockwise(t.points, h)[0];
    SortMembers(s.points + mine, p);
    if p !in mine {
      forall q | q in s.points ensures Distance(h, p) <= Distance(h, q) {
        SortMembers(s.points + mine, q);
        FirstIsNearest(t.points, h, q);
      }
      OwnerIsNearest(s, h, p);
    }
  }

  // ---- replica lists ----

  predicate Seen(list: seq<Node>, id: string) {
    exists i :: 0 <= i < |list| && list[i].id == id
  }

  /** The nodes of a walk in order of first appearance. */
  function Distinct(walk: seq<Node>): seq<Node> {
    if walk == [] then []
    else
      var n := |walk| - 1;
      var before := Distinct(walk[..n]);
      if Seen(before, walk[n].id) then before else before + [walk[n]]
  }

  function OwnersAlong(owners: map<Hash, Node>, path: seq<Hash>): (walk: seq<Node>)
    requires forall p :: p in path ==> p in owners
    ensures |walk| == |path| && forall i :: 0 <= i < |path| ==> walk[i] == owners[path[i]]
  {
    if path == [] then [] else [owners[path[0]]] + OwnersAlong(owners, path[1..])
  }

  lemma {:induction false} ClockwiseOwned(s: RingState, h: Hash)
    requires Consistent(s)
    ensures forall p :: p in Clockwise(s.points, h) ==> p in s.owners
  {
    forall p | p in Clockwise(s.points, h) ensures p in s.owners {
      ClockwiseMember(s.points, h, p);
    }
  }

  /** The owners met on one clockwise lap from `h`. */
  function Lap(s: RingState, h: Hash): seq<Node>
    requires Consistent(s)
  {
    ClockwiseOwned(s, h);
    OwnersAlong(s.owners, Clockwise(s.points, h))
  }

  /** GetNSuccessors, when its loop ends: the first distinct owners clockwise from `h`. */
  function Replicas(s: RingState, h: Hash, n: int): seq<Node>
    requires Consistent(s) && Min(n, |s.nodes|) <= |Distinct(Lap(s, h))|
  {
    if n <= 0 then [] else Distinct(Lap(s, h))[..Min(n, |s.nodes|)]
  }

  lemma {:induction false} DistinctSeen(walk: seq<Node>, id: string)
    ensures Seen(Distinct(walk), id) <==> Seen(walk, id)
  {
    if walk == [] {
    } else {
      var n := |walk| - 1;
      var before, all := Distinct(walk[..n]), Distinct(walk);
      DistinctSeen(walk[..n], id);
      if Seen(walk, id) && !Seen(walk[..n], id) {
        assert walk[n].id == id;
        assert !Seen(before, walk[n].id);
        assert all[|all| - 1] == walk[n];
      }
      if Seen(walk[..n], id) {
        var i :| 0 <= i < |before| && before[i].id == id;
        assert all[i] == before[i];
        var k :| 0 <= k < |walk[..n]| && walk[..n][k].id == id;
        assert walk[k].id == id;
      }
      if Seen(all, id) && !Seen(before, id) {
        assert walk[n].id == id;
      }
    }
  }

  /** No two nodes of the list share an ID. */
  lemma {:induction false} DistinctIds(walk: seq<Node>)
    ensures forall i, j :: 0 <= i < j < |Distinct(walk)| ==> Distinct(walk)[i].id != Distinct(walk)[j].id
    ensures forall x :: x in Distinct(walk) ==> x in walk
  {
    if walk == [] {
    } else {
      DistinctIds(walk[..|walk| - 1]);
    }
  }

  /** The positions are increasing, and each is the first of its ID on the walk. */
  ghost predicate FirstPositions(at: seq<nat>, list: seq<Node>, walk: seq<Node>) {
    && |at| == |list| && (forall i, j :: 0 <= i < j < |at| ==> at[i] < at[j])
    && (forall i :: 0 <= i < |at| ==> at[i] < |walk| && list[i] == walk[at[i]])
    && (forall i, k :: 0 <= i < |at| && 0 <= k < at[i] ==> walk[k].id != walk[at[i]].id)
  }

  lemma {:induction false} OneMoreFirst(at: seq<nat>, list: seq<Node>, walk: seq<Node>, last: Node, all: seq<Node>)
    requires FirstPositions(at, list, walk) && all == walk + [last]
    ensures FirstPositions(at, list, all)
    ensures !Seen(walk, last.id) ==> FirstPositions(at + [|walk|], list + [last], all)
  {
    assert forall k :: 0 <= k < |walk| ==> all[k] == walk[k];
    assert forall k :: 0 <= k < |walk| && !Seen(walk, last.id) ==> walk[k].id != last.id;
  }

  /**
   * The list holds the first appearance of IDs met on the walk, in order; by DistinctSeen it holds
   * every one of them.
   */
  lemma {:induction false} DistinctFirsts(walk: seq<Node>) returns (at: seq<nat>)
    ensures FirstPositions(at, Distinct(walk), walk)
  {
    if walk == [] {
      at := [];
    } else {
      var n := |walk| - 1;
      var before, last := walk[..n], walk[n];
      var positions := DistinctFirsts(before);
      DistinctSeen(before, last.id);
      OneMoreFirst(positions, Distinct(before), before, last, walk);
      at := if Seen(Distinct(before), last.id) then positions else positions + [n];
    }
  }

  /** A longer walk only extends the list. */
  lemma {:induction false} DistinctGrows(walk: seq<Node>, i: nat)
    requires i <= |walk|
    ensures Distinct(walk[..i]) <= Distinct(walk)
  {
    if i < |walk| {
      var n := |walk| - 1;
      DistinctGrows(walk[..n], i);
      assert walk[..n][..i] == walk[..i];
    } else {
      assert walk[..i] == walk;
    }
  }

  /** Leaving out one node before or after listing makes no difference. */
  lemma {:induction false} DistinctWithout(walk: seq<Node>, x: string)
    ensures Distinct(Filter(walk, NotNamed(x))) == Filter(Distinct(walk), NotNamed(x))
  {
    if walk == [] {
    } else {
      var n := |walk| - 1;
      var last, before, kept := walk[n], Distinct(walk[..n]), Filter(walk[..n], NotNamed(x));
      DistinctWithout(walk[..n], x);
      assert walk == walk[..n] + [last];
      FilterSnoc(walk[..n], last, NotNamed(x));
      FilterSnoc(before, last, NotNamed(x));
      if last.id != x {
        assert Filter(walk, NotNamed(x)) == kept + [last];
        assert (kept + [last])[..|kept|] == kept;
        SeenFilter(before, NotNamed(x), last.id);
        assert Distinct(kept + [last])
            == if Seen(Distinct(kept), last.id) then Distinct(kept) else Distinct(kept) + [last];
      } else {
        assert Filter(walk, NotNamed(x)) == kept;
      }
    }
  }

  lemma {:induction false} SeenFilter(list: seq<Node>, keep: Node -> bool, id: string)
    requires forall n :: n in list && n.id == id ==> keep(n)
    ensures Seen(Filter(list, keep), id) <==> Seen(list, id)
  {
    var f := Filter(list, keep);
    if i :| 0 <= i < |f| && f[i].id == id {
      FilterMember(list, keep, f[i]);
      assert f[i] in f;
      var k :| 0 <= k < |list| && list[k] == f[i];
    }
    if i :| 0 <= i < |list| && list[i].id == id {
      FilterMember(list, keep, list[i]);
      assert list[i] in f;
    }
  }

  // ---- adding and removing one node ----

  /** `t` is `s` without the node `x`, whose points on `s` are those in `mine` and nobody else's. */
  ghost predicate Without(s: RingState, t: RingState, x: string, mine: seq<Hash>) {
    && Consistent(s) && Consistent(t)
    && t.points == Filter(s.points, NotIn(mine))
    && (forall h :: h in s.points ==> (s.owners[h].id == x <==> h in mine))
    && (forall h :: h in t.points ==> h in s.points && t.owners[h] == s.owners[h])
    && s.nodes.Keys == t.nodes.Keys + {x} && x !in t.nodes
  }

  lemma {:induction false} OwnersFilter(s: RingState, t: RingState, x: string, mine: seq<Hash>, path: seq<Hash>)
    requires Without(s, t, x, mine) && forall p :: p in path ==> p in s.points
    requires forall p :: p in Filter(path, NotIn(mine)) ==> p in t.points
    ensures Filter(OwnersAlong(s.owners, path), NotNamed(x))
         == OwnersAlong(t.owners, Filter(path, NotIn(mine)))
  {
    if path == [] {
    } else {
      var off := NotIn(mine);
      OwnersFilter(s, t, x, mine, path[1..]);
      if off(path[0]) {
        assert Filter(path, off)[0] == path[0] && Filter(path, off)[1..] == Filter(path[1..], off);
      }
    }
  }

  /** Clockwise order and leaving out points commute. */
  lemma {:induction false} ClockwiseFilter(points: seq<Hash>, keep: Hash -> bool, h: Hash)
    ensures Filter(Clockwise(points, h), keep) == Clockwise(Filter(points, keep), h)
  {
    var up, below := (p: Hash) => p >= h, (p: Hash) => p < h;
    FilterConcat(Filter(points, up), Filter(points, below), keep);
    FilterFilter(points, up, keep);
    FilterFilter(points, below, keep);
  }

  /** The full replica order of the smaller ring is that of the larger one with the node left out. */
  lemma {:induction false} WithoutOrder(s: RingState, t: RingState, x: string, mine: seq<Hash>, h: Hash)
    requires Without(s, t, x, mine)
    ensures Filter(Distinct(Lap(s, h)), NotNamed(x)) == Distinct(Lap(t, h))
  {
    var off := NotIn(mine);
    ClockwiseFilter(s.points, off, h);
    ClockwiseOwned(s, h);
    ClockwiseOwned(t, h);
    OwnersFilter(s, t, x, mine, Clockwise(s.points, h));
    DistinctWithout(Lap(s, h), x);
  }

  /** Filtering the new points out of the sorted union gives back the old points. */
  lemma {:induction false} FilterUndoesSort(points: seq<Hash>, mine: seq<Hash>)
    requires Ascending(points) && forall h :: h in points ==> h !in mine
    ensures Filter(Sort(points + mine, HashLeq), NotIn(mine)) == points
  {
    HashesTotallyOrdered();
    FilterSort(points + mine, HashLeq, NotIn(mine));
    FilterConcat(points, mine, NotIn(mine));
    FilterAll(points, NotIn(mine));
    FilterNone(mine, NotIn(mine));
    assert points + [] == points;
    SortSorted(points, HashLeq);
  }

  // ---- runs in which no two different nodes share a point ----

  /** Among the given IDs, the points of different nodes are disjoint and every node has at least one. */
  ghost predicate NoCrossCollision(pts: string -> seq<Hash>, ids: set<string>) {
    && (forall a, b, h :: a in ids && b in ids && h in pts(a) && h in pts(b) ==> a == b)
    && (forall a :: a in ids ==> pts(a) != [])
  }

  /** Every member owns all its points and no others. */
  ghost predicate Partitioned(s: RingState, pts: string -> seq<Hash>, ids: set<string>) {
    && Consistent(s)
    && (forall id :: id in s.nodes ==> id in ids && s.nodes[id].id == id)
    && (forall id, h :: id in s.nodes && h in pts(id) ==> h in s.owners && s.owners[h] == s.nodes[id])
    && (forall h :: h in s.owners ==> s.owners[h].id in s.nodes && h in pts(s.owners[h].id))
  }

  lemma {:induction false} AddKeepsPartitioned(s: RingState, id: string, address: string, pts: string -> seq<Hash>,
      ids: set<string>)
    requires NoCrossCollision(pts, ids) && Partitioned(s, pts, ids) && id in ids
    ensures Partitioned(Added(s, Node(id, address), pts(id)), pts, ids)
  {
    ChangeKeepsConsistent(s, Add(id, address), pts);
    var t := Added(s, Node(id, address), pts(id));
    forall x, h | x in t.nodes && h in pts(x) ensures h in t.owners && t.owners[h] == t.nodes[x] {
      if x != id {
        NotAlsoHis(s, pts, ids, x, id, h);
      }
    }
    forall h | h in t.owners ensures t.owners[h].id in t.nodes && h in pts(t.owners[h].id) {
      if h !in pts(id) {
        assert h in s.owners && t.owners[h] == s.owners[h];
      }
    }
  }

  lemma {:induction false} RemoveKeepsPartitioned(s: RingState, id: string, pts: string -> seq<Hash>,
      ids: set<string>)
    requires NoCrossCollision(pts, ids) && Partitioned(s, pts, ids) && id in s.nodes
    ensures Partitioned(Removed(s, id, pts(id)), pts, ids)
  {
    ChangeKeepsConsistent(s, Remove(id), pts);
    RemoveKeepsOwned(s, id, pts, ids);
    RemoveLeavesOwners(s, id, pts, ids);
  }

  lemma {:induction false} RemoveKeepsOwned(s: RingState, id: string, pts: string -> seq<Hash>, ids: set<string>)
    requires NoCrossCollision(pts, ids) && Partitioned(s, pts, ids) && id in s.nodes
    ensures var t := Removed(s, id, pts(id));
            forall x, h :: x in t.nodes && h in pts(x) ==> h in t.owners && t.owners[h] == t.nodes[x]
  {
    var t := Removed(s, id, pts(id));
    forall x, h | x in t.nodes && h in pts(x) ensures h in t.owners && t.owners[h] == t.nodes[x] {
      NotAlsoHis(s, pts, ids, x, id, h);
      RemovedOwner(s, id, pts(id), h);
    }
  }

  lemma {:induction false} RemoveLeavesOwners(s: RingState, id: string, pts: string -> seq<Hash>, ids: set<string>)
    requires NoCrossCollision(pts, ids) && Partitioned(s, pts, ids) && id in s.nodes
    ensures var t := Removed(s, id, pts(id));
            forall h :: h in t.owners ==> t.owners[h].id in t.nodes && h in pts(t.owners[h].id)
  {
    var t := Removed(s, id, pts(id));
    forall h | h in t.owners ensures t.owners[h].id in t.nodes && h in pts(t.owners[h].id) {
      RemovedOwner(s, id, pts(id), h);
      StillOwned(s, pts, ids, id, h);
    }
  }

  lemma {:induction false} RemovedOwner(s: RingState, id: string, mine: seq<Hash>, h: Hash)
    requires Consistent(s)
    ensures h in Removed(s, id, mine).owners <==> h in s.owners && h !in mine
    ensures h in Removed(s, id, mine).owners ==> Removed(s, id, mine).owners[h] == s.owners[h]
  {
  }

  /** A member's point is owned by it and is no point of another member. */
  lemma {:induction false} NotAlsoHis(s: RingState, pts: string -> seq<Hash>, ids: set<string>, x: string,
                                      id: string, h: Hash)
    requires NoCrossCollision(pts, ids) && Partitioned(s, pts, ids) && id in ids && x in s.nodes
    requires x != id && h in pts(x)
    ensures h in s.owners && s.owners[h] == s.nodes[x] && h !in pts(id)
  {
  }

  lemma {:induction false} StillOwned(s: RingState, pts: string -> seq<Hash>, ids: set<string>, id: string, h: Hash)
    requires NoCrossCollision(pts, ids) && Partitioned(s, pts, ids) && id in s.nodes
    requires h in s.owners && h !in pts(id)
    ensures s.owners[h].id in s.nodes && s.owners[h].id != id && h in pts(s.owners[h].id)
  {
  }

  function ChangedIds(changes: seq<Change>): set<string> {
    set i | 0 <= i < |changes| :: changes[i].id
  }

  /** Without cross-node collisions every run, re-adding included, leaves the ring partitioned. */
  lemma {:induction false} RunIsPartitioned(changes: seq<Change>, pts: string -> seq<Hash>, ids: set<string>)
    requires NoCrossCollision(pts, ids) && ChangedIds(changes) <= ids
    ensures Partitioned(RingAfter(changes, pts), pts, ids)
  {
    if changes == [] {
    } else {
      var n := |changes| - 1;
      var before := RingAfter(changes[..n], pts);
      assert changes[n].id in ChangedIds(changes);
      assert ChangedIds(changes[..n]) <= ids by {
        forall x | x in ChangedIds(changes[..n]) ensures x in ids {
          var i :| 0 <= i < n && changes[..n][i].id == x;
          assert changes[i].id in ChangedIds(changes);
        }
      }
      RunIsPartitioned(changes[..n], pts, ids);
      match changes[n]
      case Add(id, address) => AddKeepsPartitioned(before, id, address, pts, ids);
      case Remove(id) =>
        if id in before.nodes {
          RemoveKeepsPartitioned(before, id, pts, ids);
        }
    }
  }

  /** Adding a fresh node, and removing a member, both relate the two rings by Without. */
  lemma {:induction false} AddIsWithout(s: RingState, node: Node, mine: seq<Hash>)
    requires Consistent(s) && node.id !in s.nodes
    requires forall h :: h in s.owners ==> s.owners[h].id in s.nodes && h !in mine
    ensures Without(Added(s, node, mine), s, node.id, mine)
  {
    var t := Added(s, node, mine);
    ChangeKeepsConsistent(s, Add(node.id, node.address), _ => mine);
    FilterUndoesSort(s.points, mine);
    forall h | h in t.points ensures t.owners[h].id == node.id <==> h in mine {
      assert h in t.owners;
    }
    forall h | h in s.points ensures h in t.points && s.owners[h] == t.owners[h] {
      SortMembers(s.points + mine, h);
    }
  }

  lemma {:induction false} RemoveIsWithout(s: RingState, id: string, pts: string -> seq<Hash>, ids: set<string>)
    requires NoCrossCollision(pts, ids) && Partitioned(s, pts, ids) && id in s.nodes
    ensures Without(s, Removed(s, id, pts(id)), id, pts(id))
  {
    ChangeKeepsConsistent(s, Remove(id), pts);
    var t := Removed(s, id, pts(id));
    forall h | h in t.points ensures h in s.points && t.owners[h] == s.owners[h] {
      FilterMember(s.points, NotIn(pts(id)), h);
    }
    assert s.nodes.Keys == t.nodes.Keys + {id};
  }

  lemma {:induction false} OwnersRestored(s: RingState, node: Node, mine: seq<Hash>)
    requires Consistent(s) && forall h :: h in s.points ==> h !in mine
    ensures Removed(Added(s, node, mine), node.id, mine).owners == s.owners
  {
    var t := Added(s, node, mine);
    var gone := Gone(t.points, mine);
    forall h: Hash ensures h in t.owners - gone <==> h in s.owners {
      SortMembers(s.points + mine, h);
    }
    forall h | h in s.owners ensures (t.owners - gone)[h] == s.owners[h] {
      assert h in s.points;
    }
  }

  /** Adding a fresh node and removing it again restores the ring exactly: points, owners and members. */
  lemma {:induction false} AddThenRemove(s: RingState, node: Node, mine: seq<Hash>)
    requires Consistent(s) && node.id !in s.nodes && forall h :: h in s.points ==> h !in mine
    ensures Removed(Added(s, node, mine), node.id, mine) == s
  {
    var t := Added(s, node, mine);
    var r := Removed(t, node.id, mine);
    FilterUndoesSort(s.points, mine);
    OwnersRestored(s, node, mine);
    assert r.nodes == s.nodes;
  }

  // ---- counting distinct owners ----

  function IdsOf(list: seq<Node>): set<string> {
    set i | 0 <= i < |list| :: list[i].id
  }

  lemma {:induction false} IdsSnoc(list: seq<Node>, last: Node)
    ensures IdsOf(list + [last]) == IdsOf(list) + {last.id}
  {
    var all := list + [last];
    forall x | x in IdsOf(all) ensures x in IdsOf(list) + {last.id} {
      var i :| 0 <= i < |all| && all[i].id == x;
      assert i < |list| ==> list[i].id == x;
    }
    forall x | x in IdsOf(list) ensures x in IdsOf(all) {
      var i :| 0 <= i < |list| && list[i].id == x;
      assert all[i].id == x;
    }
    assert all[|list|].id == last.id;
  }

  lemma {:induction false} DistinctCount(list: seq<Node>)
    requires forall i, j :: 0 <= i < j < |list| ==> list[i].id != list[j].id
    ensures |IdsOf(list)| == |list|
  {
    if list != [] {
      var n := |list| - 1;
      DistinctCount(list[..n]);
      assert list == list[..n] + [list[n]];
      IdsSnoc(list[..n], list[n]);
      assert list[n].id !in IdsOf(list[..n]);
    } else {
      assert IdsOf(list) == {};
    }
  }

  /** The list has one node for every ID on the walk. */
  lemma {:induction false} DistinctLength(walk: seq<Node>)
    ensures |Distinct(walk)| == |IdsOf(walk)|
  {
    DistinctIds(walk);
    DistinctCount(Distinct(walk));
    forall x ensures x in IdsOf(Distinct(walk)) <==> x in IdsOf(walk) {
      DistinctSeen(walk, x);
      assert x in IdsOf(walk) <==> Seen(walk, x);
      assert x in IdsOf(Distinct(walk)) <==> Seen(Distinct(walk), x);
    }
    assert IdsOf(Distinct(walk)) == IdsOf(walk);
  }

  lemma {:induction false} IdsAlong(owners: map<Hash, Node>, path: seq<Hash>, id: string)
    requires forall p :: p in path ==> p in owners
    ensures id in IdsOf(OwnersAlong(owners, path)) <==> exists p :: p in path && owners[p].id == id
  {
    var walk := OwnersAlong(owners, path);
    if id in IdsOf(walk) {
      var i :| 0 <= i < |walk| && walk[i].id == id;
      assert path[i] in path && owners[path[i]].id == id;
    }
    if p :| p in path && owners[p].id == id {
      var i :| 0 <= i < |path| && path[i] == p;
      assert walk[i].id == id;
    }
  }

  lemma {:induction false} LapIds(s: RingState, h: Hash, id: string)
    requires Consistent(s)
    ensures id in IdsOf(Lap(s, h)) <==> exists p :: p in s.points && s.owners[p].id == id
  {
    ClockwiseOwned(s, h);
    IdsAlong(s.owners, Clockwise(s.points, h), id);
    forall p ensures p in Clockwise(s.points, h) <==> p in s.points {
      ClockwiseMember(s.points, h, p);
    }
  }

  /** In a partitioned ring one lap meets every member. */
  lemma {:induction false} LapMeetsEveryone(s: RingState, pts: string -> seq<Hash>, ids: set<string>, h: Hash)
    requires NoCrossCollision(pts, ids) && Partitioned(s, pts, ids)
    ensures |Distinct(Lap(s, h))| == |s.nodes|
  {
    DistinctLength(Lap(s, h));
    forall id ensures id in IdsOf(Lap(s, h)) <==> id in s.nodes.Keys {
      LapIds(s, h, id);
      EveryoneHasPoints(s, pts, ids, id);
    }
    assert IdsOf(Lap(s, h)) == s.nodes.Keys;
  }

  lemma {:induction false} EveryoneHasPoints(s: RingState, pts: string -> seq<Hash>, ids: set<string>, id: string)
    requires NoCrossCollision(pts, ids) && Partitioned(s, pts, ids)
    ensures id in s.nodes <==> exists p :: p in s.points && s.owners[p].id == id
  {
    if id in s.nodes {
      var p := pts(id)[0];
      assert p in s.points && s.owners[p].id == id;
    }
    if p :| p in s.points && s.owners[p].id == id {
      assert p in s.owners;
    }
  }

  /**
   * In every ring reached without cross-node collisions, GetNSuccessors returns exactly
   * min(n, members) pairwise distinct members, in order of first clockwise appearance.
   */
  lemma {:induction false} ReplicasAreDistinctMembers(changes: seq<Change>, pts: string -> seq<Hash>,
      ids: set<string>, h: Hash, n: nat)
    requires NoCrossCollision(pts, ids) && ChangedIds(changes) <= ids
    ensures var s := RingAfter(changes, pts);
            && Consistent(s) && Min(n, |s.nodes|) <= |Distinct(Lap(s, h))|
            && var r := Replicas(s, h, n);
            && |r| == Min(n, |s.nodes|) && r <= Distinct(Lap(s, h))
            && (forall i, j :: 0 <= i < j < |r| ==> r[i].id != r[j].id)
            && (forall i :: 0 <= i < |r| ==> r[i].id in s.nodes && s.nodes[r[i].id] == r[i])
  {
    var s := RingAfter(changes, pts);
    RunIsPartitioned(changes, pts, ids);
    LapMeetsEveryone(s, pts, ids, h);
    DistinctIds(Lap(s, h));
    var r := Replicas(s, h, n);
    forall i | 0 <= i < |r| ensures r[i].id in s.nodes && s.nodes[r[i].id] == r[i] {
      assert r[i] in Distinct(Lap(s, h));
      LapOwner(s, h, r[i]);
      var p :| p in s.owners && s.owners[p] == r[i];
      assert s.owners[p].id in s.nodes && p in pts(s.owners[p].id);
    }
  }

  lemma {:induction false} LapOwner(s: RingState, h: Hash, n: Node)
    requires Consistent(s) && n in Lap(s, h)
    ensures exists p :: p in s.owners && s.owners[p] == n
  {
    ClockwiseOwned(s, h);
    var path := Clockwise(s.points, h);
    var i :| 0 <= i < |path| && Lap(s, h)[i] == n;
    assert path[i] in path;
    assert path[i] in s.owners && s.owners[path[i]] == n;
  }

  /** A prefix of the larger list, less the node, is a prefix of the smaller list, at most one shorter. */
  lemma {:induction false} PrefixWithout(all: seq<Node>, x: string, k: nat)
    requires k <= |all| && forall i, j :: 0 <= i < j < |all| ==> all[i].id != all[j].id
    ensures Filter(all[..k], NotNamed(x)) <= Filter(all, NotNamed(x))
    ensures k - 1 <= |Filter(all[..k], NotNamed(x))| <= k
    ensures Seen(all[..k], x) <==> |Filter(all[..k], NotNamed(x))| == k - 1
  {
    assert all == all[..k] + all[k..];
    FilterConcat(all[..k], all[k..], NotNamed(x));
    WithoutOne(all[..k], x);
  }

  lemma {:induction false} WithoutOne(list: seq<Node>, x: string)
    requires forall i, j :: 0 <= i < j < |list| ==> list[i].id != list[j].id
    ensures |Filter(list, NotNamed(x))| == if Seen(list, x) then |list| - 1 else |list|
  {
    if list == [] {
    } else {
      WithoutOne(list[1..], x);
      assert list == [list[0]] + list[1..];
      if Seen(list[1..], x) {
        var i :| 0 <= i < |list[1..]| && list[1..][i].id == x;
        assert list[i + 1].id == x;
      }
      if i :| 0 <= i < |list| && list[i].id == x {
        assert i > 0 ==> list[1..][i - 1].id == x;
      }
    }
  }

  lemma {:induction false} OneMember(more: set<string>, fewer: set<string>, x: string)
    requires more == fewer + {x} && x !in fewer
    ensures |more| == |fewer| + 1
  {
  }

  /**
   * The larger ring's list without the node is a prefix of the smaller ring's, one shorter if the node
   * pushed a replica off the end.
   */
  lemma {:induction false} ListsDifferByOne(s: RingState, t: RingState, x: string, h: Hash, n: nat)
    requires Consistent(s) && Consistent(t) && |s.nodes| == |t.nodes| + 1
    requires |Distinct(Lap(s, h))| == |s.nodes| && |Distinct(Lap(t, h))| == |t.nodes|
    requires Filter(Distinct(Lap(s, h)), NotNamed(x)) == Distinct(Lap(t, h))
    ensures var large, small := Replicas(s, h, n), Replicas(t, h, n);
            && Filter(large, NotNamed(x)) <= small
            && |small| - |Filter(large, NotNamed(x))| == if Seen(large, x) && n <= |t.nodes| then 1 else 0
  {
    DistinctIds(Lap(s, h));
    CutWithout(Distinct(Lap(s, h)), Distinct(Lap(t, h)), x, n);
  }

  /** The same about the two lists themselves. */
  lemma {:induction false} CutWithout(all: seq<Node>, fewer: seq<Node>, x: string, n: nat)
    requires fewer == Filter(all, NotNamed(x)) && |all| == |fewer| + 1
    requires forall i, j :: 0 <= i < j < |all| ==> all[i].id != all[j].id
    ensures var large, small := all[..Min(n, |all|)], fewer[..Min(n, |fewer|)];
            && Filter(large, NotNamed(x)) <= small
            && |small| - |Filter(large, NotNamed(x))| == if Seen(large, x) && n <= |fewer| then 1 else 0
  {
    var k := Min(n, |all|);
    PrefixWithout(all, x, k);
    if n > |fewer| {
      assert all[..k] == all && fewer[..Min(n, |fewer|)] == fewer;
    }
  }

  lemma {:induction false} AddOrder(s: RingState, pts: string -> seq<Hash>, ids: set<string>, node: Node, h: Hash)
    requires NoCrossCollision(pts, ids) && Partitioned(s, pts, ids) && node.id in ids && node.id !in s.nodes
    ensures var t := Added(s, node, pts(node.id));
            && Partitioned(t, pts, ids) && |t.nodes| == |s.nodes| + 1
            && Filter(Distinct(Lap(t, h)), NotNamed(node.id)) == Distinct(Lap(s, h))
  {
    var t := Added(s, node, pts(node.id));
    AddKeepsPartitioned(s, node.id, node.address, pts, ids);
    AddIsWithout(s, node, pts(node.id));
    WithoutOrder(t, s, node.id, pts(node.id), h);
    OneMember(t.nodes.Keys, s.nodes.Keys, node.id);
  }

  lemma {:induction false} RemoveOrder(s: RingState, pts: string -> seq<Hash>, ids: set<string>, id: string, h: Hash)
    requires NoCrossCollision(pts, ids) && Partitioned(s, pts, ids) && id in s.nodes
    ensures var t := Removed(s, id, pts(id));
            && Partitioned(t, pts, ids) && |s.nodes| == |t.nodes| + 1
            && Filter(Distinct(Lap(s, h)), NotNamed(id)) == Distinct(Lap(t, h))
  {
    var t := Removed(s, id, pts(id));
    RemoveKeepsPartitioned(s, id, pts, ids);
    RemoveIsWithout(s, id, pts, ids);
    WithoutOrder(s, t, id, pts(id), h);
    OneMember(s.nodes.Keys, t.nodes.Keys, id);
  }

  /**
   * Adding a fresh node changes a key's replica list only by inserting that node: the new list
   * without it is a prefix of the old list, and shorter by one exactly when the node pushed another
   * replica off the end.
   */
  lemma {:induction false} AddOnlyInserts(s: RingState, pts: string -> seq<Hash>, ids: set<string>, node: Node,
                                          h: Hash, n: nat)
    requires NoCrossCollision(pts, ids) && Partitioned(s, pts, ids) && node.id in ids && node.id !in s.nodes
    ensures var t := Added(s, node, pts(node.id));
            && Partitioned(t, pts, ids)
            && |Distinct(Lap(s, h))| == |s.nodes| && |Distinct(Lap(t, h))| == |t.nodes|
            && Filter(Replicas(t, h, n), NotNamed(node.id)) <= Replicas(s, h, n)
            && |Replicas(s, h, n)| - |Filter(Replicas(t, h, n), NotNamed(node.id))|
               == if Seen(Replicas(t, h, n), node.id) && n <= |s.nodes| then 1 else 0
  {
    var t := Added(s, node, pts(node.id));
    AddOrder(s, pts, ids, node, h);
    LapMeetsEveryone(s, pts, ids, h);
    LapMeetsEveryone(t, pts, ids, h);
    ListsDifferByOne(t, s, node.id, h, n);
  }

  /** Removing a member is the reverse: it is only taken out of replica lists. */
  lemma {:induction false} RemoveOnlyTakesOut(s: RingState, pts: string -> seq<Hash>, ids: set<string>, id: string,
      h: Hash, n: nat)
    requires NoCrossCollision(pts, ids) && Partitioned(s, pts, ids) && id in s.nodes
    ensures var t := Removed(s, id, pts(id));
            && Partitioned(t, pts, ids)
            && |Distinct(Lap(s, h))| == |s.nodes| && |Distinct(Lap(t, h))| == |t.nodes|
            && Filter(Replicas(s, h, n), NotNamed(id)) <= Replicas(t, h, n)
            && |Replicas(t, h, n)| - |Filter(Replicas(s, h, n), NotNamed(id))|
               == if Seen(Replicas(s, h, n), id) && n <= |t.nodes| then 1 else 0
  {
    var t := Removed(s, id, pts(id));
    RemoveOrder(s, pts, ids, id, h);
    LapMeetsEveryone(s, pts, ids, h);
    LapMeetsEveryone(t, pts, ids, h);
    ListsDifferByOne(s, t, id, h, n);
  }

  // ---- when the loop does not end ----

  /** The nodes met in the first `k` rounds of the loop, going round and round the lap. */
  function RoundAndRound(lap: seq<Node>, k: nat): (walk: seq<Node>)
    requires lap != []
    ensures |walk| == k
  {
    if k == 0 then [] else RoundAndRound(lap, k - 1) + [lap[(k - 1) % |lap|]]
  }

  lemma {:induction false} SmallModulo(a: nat, b: nat)
    requires a < b
    ensures a % b == a
  {
  }

  lemma {:induction false} FirstLap(lap: seq<Node>, k: nat)
    requires lap != [] && k <= |lap|
    ensures RoundAndRound(lap, k) == lap[..k]
  {
    if k == 0 {
    } else {
      FirstLap(lap, k - 1);
      SmallModulo(k - 1, |lap|);
      assert lap[..k] == lap[..k - 1] + [lap[k - 1]];
    }
  }

  lemma {:induction false} RoundIds(lap: seq<Node>, k: nat, x: string)
    requires lap != [] && Seen(RoundAndRound(lap, k), x)
    ensures Seen(lap, x)
  {
    var walk := RoundAndRound(lap, k);
    var i :| 0 <= i < |walk| && walk[i].id == x;
    if i == k - 1 {
      assert lap[(k - 1) % |lap|].id == x;
    } else {
      assert RoundAndRound(lap, k - 1)[i].id == x;
      RoundIds(lap, k - 1, x);
    }
  }

  /** No number of rounds finds more nodes than the first lap. */
  lemma {:induction false} RoundsFindNoMore(lap: seq<Node>, k: nat)
    requires lap != []
    ensures |Distinct(RoundAndRound(lap, k))| <= |Distinct(lap)|
  {
    var walk := RoundAndRound(lap, k);
    DistinctLength(walk);
    DistinctLength(lap);
    forall x | x in IdsOf(walk) ensures x in IdsOf(lap) {
      assert Seen(walk, x);
      RoundIds(lap, k, x);
    }
    SubsetSize(IdsOf(walk), IdsOf(lap));
  }

  /**
   * The collecting loop returns: nothing is wanted, or there are points and some number of rounds
   * finds enough nodes. With members but no points the loop divides by zero.
   */
  ghost predicate LoopReturns(lap: seq<Node>, want: int) {
    want <= 0 || (lap != [] && exists k: nat :: |Distinct(RoundAndRound(lap, k))| >= want)
  }

  /** The loop returns if and only if one lap meets as many nodes as are wanted. */
  lemma {:induction false} LoopEndsIff(lap: seq<Node>, want: int)
    ensures LoopReturns(lap, want) <==> want <= |Distinct(lap)|
  {
    if lap != [] {
      if k: nat :| |Distinct(RoundAndRound(lap, k))| >= want {
        RoundsFindNoMore(lap, k);
      }
      FirstLap(lap, |lap|);
      assert lap[..|lap|] == lap;
      assert |Distinct(RoundAndRound(lap, |lap|))| == |Distinct(lap)|;
    }
  }

  /** Every owner is a member, and owns only points of its own. */
  ghost predicate OwnersAreMembers(s: RingState, pts: string -> seq<Hash>) {
    forall h :: h in s.owners ==> s.owners[h].id in s.nodes && h in pts(s.owners[h].id)
  }

  /** Every run of membership changes keeps that, even with hash collisions and repeated adds. */
  lemma {:induction false} RunOwnersAreMembers(changes: seq<Change>, pts: string -> seq<Hash>)
    ensures OwnersAreMembers(RingAfter(changes, pts), pts)
  {
    if changes == [] {
    } else {
      var n := |changes| - 1;
      RunOwnersAreMembers(changes[..n], pts);
      RunIsConsistent(changes[..n], pts);
      ChangeKeepsOwners(RingAfter(changes[..n], pts), changes[n], pts);
    }
  }

  lemma {:induction false} ChangeKeepsOwners(s: RingState, c: Change, pts: string -> seq<Hash>)
    requires Consistent(s) && OwnersAreMembers(s, pts)
    ensures OwnersAreMembers(Changed(s, c, pts), pts)
  {
    var t := Changed(s, c, pts);
    forall h | h in t.owners ensures t.owners[h].id in t.nodes && h in pts(t.owners[h].id) {
      if c.Remove? && c.id in s.nodes {
        RemovedOwner(s, c.id, pts(c.id), h);
      } else if c.Add? && h !in pts(c.id) {
        assert h in s.owners && t.owners[h] == s.owners[h];
      }
    }
  }

  /**
   * Over every run, collisions included: the loop for all members returns if and only if every member
   * owns a point.
   */
  lemma {:induction false} LoopForAllIff(changes: seq<Change>, pts: string -> seq<Hash>, h: Hash)
    ensures var s := RingAfter(changes, pts);
            && Consistent(s)
            && (LoopReturns(Lap(s, h), |s.nodes|)
                <==> forall id :: id in s.nodes ==> exists p :: p in s.points && s.owners[p].id == id)
  {
    var s := RingAfter(changes, pts);
    RunIsConsistent(changes, pts);
    RunOwnersAreMembers(changes, pts);
    var met := IdsOf(Lap(s, h));
    forall id ensures id in met <==> exists p :: p in s.points && s.owners[p].id == id {
      LapIds(s, h, id);
    }
    assert met <= s.nodes.Keys;
    LoopEndsIff(Lap(s, h), |s.nodes|);
    DistinctLength(Lap(s, h));
    SubsetSize(met, s.nodes.Keys);
    if met != s.nodes.Keys {
      var id :| id in s.nodes.Keys && id !in met;
      SubsetSize(met, s.nodes.Keys - {id});
    }
  }

  lemma {:induction false} RingSnoc(changes: seq<Change>, c: Change, pts: string -> seq<Hash>)
    ensures RingAfter(changes + [c], pts) == Changed(RingAfter(changes, pts), c, pts)
  {
    assert (changes + [c])[..|changes|] == changes;
  }

  function ThreeAdds(a: string, b: string, c: string): seq<Change> {
    [Add(a, ""), Add(b, ""), Add(c, "")]
  }

  /**
   * With a collision the loop can run forever: after adding a, b and c, where a and b hash to the
   * same points, and removing a, node b is a member without a point.
   */
  lemma {:induction false} CollisionStrandsMember(pts: string -> seq<Hash>, a: string, b: string, c: string, h: Hash)
    requires a != b && b != c && a != c && pts(c) != [] && pts(a) == pts(b)
    requires forall p :: p in pts(c) ==> p !in pts(a)
    ensures var s := RingAfter(ThreeAdds(a, b, c) + [Remove(a)], pts);
            Consistent(s) && s.nodes.Keys == {b, c} && Lap(s, h) != [] && !LoopReturns(Lap(s, h), 2)
  {
    var three := ThreeAdds(a, b, c);
    ThreeAdded(pts, a, b, c);
    RingSnoc(three, Remove(a), pts);
    RunIsConsistent(three, pts);
    ChangeKeepsConsistent(RingAfter(three, pts), Remove(a), pts);
    Stranded(RingAfter(three, pts), pts, a, b, c, h);
    LoopEndsIff(Lap(Changed(RingAfter(three, pts), Remove(a), pts), h), 2);
  }

  lemma {:induction false} Stranded(s: RingState, pts: string -> seq<Hash>, a: string, b: string, c: string, h: Hash)
    requires a != b && b != c && a != c && pts(c) != [] && forall p :: p in pts(c) ==> p !in pts(a)
    requires Consistent(s) && s.nodes.Keys == {a, b, c} && Consistent(Removed(s, a, pts(a)))
    requires forall p :: p in s.owners <==> p in pts(a) || p in pts(c)
    requires forall p :: p in pts(c) ==> s.owners[p] == Node(c, "")
    ensures var t := Removed(s, a, pts(a));
            t.nodes.Keys == {b, c} && Lap(t, h) != [] && |Distinct(Lap(t, h))| == 1
  {
    var t := Removed(s, a, pts(a));
    AllPoints(s, pts(a), pts(c), Node(c, ""));
    OnlyOwner(t, pts(c), c, h);
  }

  function TwoAdds(a: string, b: string): seq<Change> {
    [Add(a, ""), Add(b, "")]
  }

  lemma {:induction false} TwoAdded(pts: string -> seq<Hash>, a: string, b: string)
    requires pts(a) == pts(b)
    ensures var s := RingAfter(TwoAdds(a, b), pts);
            s.nodes.Keys == {a, b} && forall p :: p in s.owners ==> p in pts(a)
  {
    var none: seq<Change> := [];
    var one := none + [Add(a, "")];
    assert TwoAdds(a, b) == one + [Add(b, "")];
    RingSnoc(none, Add(a, ""), pts);
    RingSnoc(one, Add(b, ""), pts);
  }

  /**
   * When all points collide, removing one of two nodes leaves the other as a member of a ring without
   * points: any replica list that is wanted then fails.
   */
  lemma {:induction false} CollisionEmptiesRing(pts: string -> seq<Hash>, a: string, b: string, h: Hash, want: int)
    requires a != b && pts(a) == pts(b) && want > 0
    ensures var s := RingAfter(TwoAdds(a, b) + [Remove(a)], pts);
            Consistent(s) && s.nodes.Keys == {b} && s.points == [] && !LoopReturns(Lap(s, h), want)
  {
    var two := TwoAdds(a, b);
    var s := RingAfter(two, pts);
    TwoAdded(pts, a, b);
    RingSnoc(two, Remove(a), pts);
    RunIsConsistent(two, pts);
    ChangeKeepsConsistent(s, Remove(a), pts);
    NothingLeft(s, a, pts(a), h);
    LoopEndsIff(Lap(Removed(s, a, pts(a)), h), want);
  }

  lemma {:induction false} NothingLeft(s: RingState, id: string, gone: seq<Hash>, h: Hash)
    requires Consistent(s) && (forall p :: p in s.owners ==> p in gone) && Consistent(Removed(s, id, gone))
    ensures Removed(s, id, gone).points == [] && Distinct(Lap(Removed(s, id, gone), h)) == []
  {
    FilterNone(s.points, NotIn(gone));
  }

  lemma {:induction false} ThreeAdded(pts: string -> seq<Hash>, a: string, b: string, c: string)
    requires pts(a) == pts(b) && forall p :: p in pts(c) ==> p !in pts(a)
    ensures var s := RingAfter(ThreeAdds(a, b, c), pts);
            && s.nodes.Keys == {a, b, c}
            && (forall p :: p in s.owners <==> p in pts(a) || p in pts(c))
            && (forall p :: p in pts(c) ==> s.owners[p] == Node(c, ""))
  {
    var one := [Add(a, "")];
    var two := one + [Add(b, "")];
    assert ThreeAdds(a, b, c) == two + [Add(c, "")];
    assert RingAfter(one, pts) == Added(RingState([], map[], map[]), Node(a, ""), pts(a)) by {
      assert one == [] + [Add(a, "")];
      RingSnoc([], Add(a, ""), pts);
    }
    RingSnoc(one, Add(b, ""), pts);
    RingSnoc(two, Add(c, ""), pts);
  }

  /** Removing the points in `gone` from a ring that has those and `mine` leaves `mine`. */
  lemma {:induction false} AllPoints(s: RingState, gone: seq<Hash>, mine: seq<Hash>, node: Node)
    requires Consistent(s) && (forall p :: p in s.owners <==> p in gone || p in mine)
    requires forall p :: p in mine ==> p !in gone && s.owners[p] == node
    ensures var t := Removed(s, "", gone);
            && (forall p :: p in t.points <==> p in mine)
            && (forall p :: p in t.owners ==> t.owners[p] == node)
  {
    forall p: Hash ensures p in Removed(s, "", gone).points <==> p in mine {
      FilterMember(s.points, NotIn(gone), p);
    }
  }

  /** A ring whose points all belong to one node lists that node alone. */
  lemma {:induction false} OnlyOwner(s: RingState, mine: seq<Hash>, id: string, h: Hash)
    requires Consistent(s) && mine != [] && forall p :: p in s.points <==> p in mine
    requires forall p :: p in s.points ==> s.owners[p].id == id
    ensures Lap(s, h) != [] && |Distinct(Lap(s, h))| == 1
  {
    var lap := Lap(s, h);
    assert mine[0] in s.points;
    forall x ensures x in IdsOf(lap) <==> x == id {
      LapIds(s, h, x);
    }
    assert IdsOf(lap) == {id};
    DistinctLength(lap);
  }
}
