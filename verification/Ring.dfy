/** The mutable hash ring: a growable sorted buffer of points, an owner map and a member map. */
module Rings {
  import opened Common
  import opened Ordering
  import opened RingSpec

  const DEFAULT_VIRTUAL_NODES := 150

  /** The string hashed for the i-th virtual node. */
  function PointName(id: string, i: nat): string {
    id + "#" + Decimal(i)
  }

  function PointsOf(hashKey: string -> Hash, virtualNodes: nat, id: string): (mine: seq<Hash>)
    ensures |mine| == virtualNodes
  {
    if virtualNodes == 0 then []
    else PointsOf(hashKey, virtualNodes - 1, id) + [hashKey(PointName(id, virtualNodes - 1))]
  }

  lemma {:induction false} PointsPrefix(hashKey: string -> Hash, virtualNodes: nat, id: string, i: nat)
    requires i < virtualNodes
    ensures PointsOf(hashKey, virtualNodes, id)[..i + 1]
         == PointsOf(hashKey, virtualNodes, id)[..i] + [hashKey(PointName(id, i))]
  {
    if i < virtualNodes - 1 {
      var all, fewer := PointsOf(hashKey, virtualNodes, id), PointsOf(hashKey, virtualNodes - 1, id);
      PointsPrefix(hashKey, virtualNodes - 1, id, i);
      assert all[..i + 1] == fewer[..i + 1] && all[..i] == fewer[..i];
    }
  }

  // ---- what the points are hashed from ----

  /** The name holds the whole node ID, a separator, and the number of the virtual node in decimal. */
  lemma {:induction false} PointNameReads(id: string, i: nat)
    ensures var name := PointName(id, i);
            && |id| < |name| && name[..|id|] == id && name[|id|] == '#'
            && ReadDecimal(name[|id| + 1..]) == i && forall k :: |id| < k < |name| ==> IsDigit(name[k])
  {
    DecimalReadsBack(i);
    var name := PointName(id, i);
    assert name[..|id|] == id && name[|id| + 1..] == Decimal(i);
    forall k | |id| < k < |name| ensures IsDigit(name[k]) {
      assert name[k] == Decimal(i)[k - |id| - 1];
    }
  }

  /** Distinct virtual nodes have distinct names, whatever the IDs contain. */
  lemma {:induction false} PointNamesDiffer(a: string, i: nat, b: string, j: nat)
    requires PointName(a, i) == PointName(b, j)
    ensures a == b && i == j
  {
    PointNameReads(a, i);
    PointNameReads(b, j);
    var name := PointName(a, i);
    SeparatorNotAfter(name, |a|, |b|);
    SeparatorNotAfter(name, |b|, |a|);
  }

  lemma {:induction false} SeparatorNotAfter(name: string, at: nat, other: nat)
    requires other < |name| && name[other] == '#' && forall k :: at < k < |name| ==> IsDigit(name[k])
    ensures other <= at
  {
  }

  /** A node's points are the hashes of its names, one for each virtual node. */
  lemma {:induction false} PointsAre(hashKey: string -> Hash, virtualNodes: nat, id: string, h: Hash)
    ensures h in PointsOf(hashKey, virtualNodes, id)
       <==> exists i :: 0 <= i < virtualNodes && h == hashKey(PointName(id, i))
  {
    if virtualNodes == 0 {
    } else {
      PointsAre(hashKey, virtualNodes - 1, id, h);
      if h == hashKey(PointName(id, virtualNodes - 1)) {
        assert PointsOf(hashKey, virtualNodes, id)[virtualNodes - 1] == h;
      }
    }
  }

  /** The hash does not collide on the names hashed for the virtual nodes of these IDs. */
  ghost predicate NamesDoNotCollide(hashKey: string -> Hash, virtualNodes: nat, ids: set<string>) {
    forall a, b, i, j :: a in ids && b in ids && 0 <= i < virtualNodes && 0 <= j < virtualNodes ==>
      hashKey(PointName(a, i)) == hashKey(PointName(b, j)) ==> PointName(a, i) == PointName(b, j)
  }

  function PointsFor(hashKey: string -> Hash, virtualNodes: nat): string -> seq<Hash> {
    id => PointsOf(hashKey, virtualNodes, id)
  }

  /** Then the points of different nodes are disjoint, and every node has some. */
  lemma {:induction false} PointsDoNotCollide(hashKey: string -> Hash, virtualNodes: nat, ids: set<string>)
    requires virtualNodes > 0 && NamesDoNotCollide(hashKey, virtualNodes, ids)
    ensures NoCrossCollision(PointsFor(hashKey, virtualNodes), ids)
  {
    var pts := PointsFor(hashKey, virtualNodes);
    forall a, b, h | a in ids && b in ids && h in pts(a) && h in pts(b) ensures a == b {
      PointsAre(hashKey, virtualNodes, a, h);
      PointsAre(hashKey, virtualNodes, b, h);
      var i :| 0 <= i < virtualNodes && h == hashKey(PointName(a, i));
      var j :| 0 <= j < virtualNodes && h == hashKey(PointName(b, j));
      PointNamesDiffer(a, i, b, j);
    }
    forall a | a in ids ensures pts(a) != [] {
      assert |pts(a)| == virtualNodes;
    }
  }

  /** Every run of membership changes on the hashed names leaves each member owning its points and no others. */
  lemma {:induction false} HashedRunIsPartitioned(changes: seq<Change>, hashKey: string -> Hash, virtualNodes: nat)
    requires virtualNodes > 0 && NamesDoNotCollide(hashKey, virtualNodes, ChangedIds(changes))
    ensures var pts := PointsFor(hashKey, virtualNodes);
            Partitioned(RingAfter(changes, pts), pts, ChangedIds(changes))
  {
    PointsDoNotCollide(hashKey, virtualNodes, ChangedIds(changes));
    RunIsPartitioned(changes, PointsFor(hashKey, virtualNodes), ChangedIds(changes));
  }

  /** On such a ring the replicas of every key are exactly min(n, members) distinct members. */
  lemma {:induction false} HashedReplicasAreDistinct(changes: seq<Change>, hashKey: string -> Hash,
      virtualNodes: nat, key: string, n: nat)
    requires virtualNodes > 0 && NamesDoNotCollide(hashKey, virtualNodes, ChangedIds(changes))
    ensures var s := RingAfter(changes, PointsFor(hashKey, virtualNodes));
            && Consistent(s) && Min(n, |s.nodes|) <= |Distinct(Lap(s, hashKey(key)))|
            && var r := Replicas(s, hashKey(key), n);
            && |r| <= n && |r| <= |s.nodes| && (|r| == n || |r| == |s.nodes|)
            && r <= Distinct(Lap(s, hashKey(key)))
            && (forall i, j :: 0 <= i < j < |r| ==> r[i].id != r[j].id)
            && (forall i :: 0 <= i < |r| ==> r[i].id in s.nodes && s.nodes[r[i].id] == r[i])
  {
    PointsDoNotCollide(hashKey, virtualNodes, ChangedIds(changes));
    ReplicasAreDistinctMembers(changes, PointsFor(hashKey, virtualNodes), ChangedIds(changes), hashKey(key), n);
  }

  class Ring {
    const hashKey: string -> Hash
    const virtualNodes: nat
    var buf: array<Hash>
    var len: nat
    var owners: map<Hash, Node>
    var nodes: map<string, Node>

    ghost predicate Valid()
      reads this, buf
    {
      len <= buf.Length && virtualNodes > 0 && Consistent(State())
    }

    ghost function State(): RingState
      requires len <= buf.Length
      reads this, buf
    {
      RingState(buf[..len], owners, nodes)
    }

    /** NewRing: a non-positive number of virtual nodes means the default. */
    constructor (virtualNodes: int, hashKey: string -> Hash)
      ensures Valid() && State() == RingState([], map[], map[]) && this.hashKey == hashKey && fresh(buf)
      ensures this.virtualNodes == if virtualNodes <= 0 then 150 else virtualNodes
    {
      this.virtualNodes := if virtualNodes <= 0 then DEFAULT_VIRTUAL_NODES else virtualNodes;
      this.hashKey := hashKey;
      buf, len := new Hash[0], 0;
      owners, nodes := map[], map[];
    }

    /** Go's append: in place while there is room, otherwise into a larger copy. */
    method Push(h: Hash)
      requires len <= buf.Length
      modifies this`buf, this`len, buf
      ensures len <= buf.Length && buf[..len] == old(buf[..len]) + [h]
      ensures buf == old(buf) || fresh(buf)
    {
      if len == buf.Length {
        var larger := new Hash[2 * len + 1];
        for i := 0 to len
          modifies larger
          invariant larger[..i] == buf[..i]
        {
          larger[i] := buf[i];
        }
        buf := larger;
      }
      buf[len] := h;
      len := len + 1;
    }

    /** sort.Slice on the points, in place. */
    method SortPoints()
      requires len <= buf.Length
      modifies buf
      ensures buf[..len] == Sort(old(buf[..len]), HashLeq)
    {
      HashesTotallyOrdered();
      var sorted := SortSlice(buf[..len], HashLeq);
      SortKeeps(buf[..len], HashLeq);
      SortedUnique(sorted, Sort(buf[..len], HashLeq), HashLeq);
      assert |sorted| == len by {
        assert |multiset(sorted)| == |sorted| && |multiset(buf[..len])| == len;
      }
      for i := 0 to len
        invariant buf[..i] == sorted[..i]
      {
        buf[i] := sorted[i];
      }
    }

    /** The loop of AddNode: every virtual node's point is appended and owned. */
    method AppendPoints(node: Node)
      requires len <= buf.Length
      modifies this`buf, this`len, this`owners, buf
      ensures len <= buf.Length && (buf == old(buf) || fresh(buf))
      ensures buf[..len] == old(buf[..len]) + PointsOf(hashKey, virtualNodes, node.id)
      ensures owners == OwnAll(old(owners), PointsOf(hashKey, virtualNodes, node.id), node)
    {
      ghost var points, mine := buf[..len], PointsOf(hashKey, virtualNodes, node.id);
      for i := 0 to virtualNodes
        invariant len <= buf.Length && (buf == old(buf) || fresh(buf))
        invariant buf[..len] == points + mine[..i]
        invariant owners == OwnAll(old(owners), mine[..i], node)
      {
        var h := hashKey(PointName(node.id, i));
        PointsPrefix(hashKey, virtualNodes, node.id, i);
        OwnAllSnoc(old(owners), mine[..i], node, h);
        assert points + (mine[..i] + [h]) == points + mine[..i] + [h];
        Push(h);
        owners := owners[h := node];
      }
      assert mine[..virtualNodes] == mine;
    }

    method AddNode(id: string, address: string)
      requires Valid()
      modifies this`buf, this`len, this`owners, this`nodes, buf
      ensures Valid() && (buf == old(buf) || fresh(buf))
      ensures State() == Added(old(State()), Node(id, address), PointsOf(hashKey, virtualNodes, id))
    {
      var node := Node(id, address);
      ghost var s, mine := State(), PointsOf(hashKey, virtualNodes, id);
      nodes := nodes[id := node];
      AppendPoints(node);
      SortPoints();
      ChangeKeepsConsistent(s, Add(id, address), _ => mine);
    }

    method PointSet(id: string) returns (hashes: set<Hash>)
      ensures forall h :: h in hashes <==> h in PointsOf(hashKey, virtualNodes, id)
    {
      hashes := {};
      ghost var mine := PointsOf(hashKey, virtualNodes, id);
      for i := 0 to virtualNodes
        invariant forall h :: h in hashes <==> h in mine[..i]
      {
        PointsPrefix(hashKey, virtualNodes, id, i);
        hashes := hashes + {hashKey(PointName(id, i))};
      }
      assert mine[..virtualNodes] == mine;
    }

    /** The in-place filter of RemoveNode: the write position never overtakes the read position. */
    method FilterPoints(toRemove: set<Hash>, ghost mine: seq<Hash>)
      requires len <= buf.Length && forall h :: h in toRemove <==> h in mine
      modifies this`len, this`owners, buf
      ensures len <= buf.Length && buf[..len] == Filter(old(buf[..len]), NotIn(mine))
      ensures owners == old(owners) - Gone(old(buf[..len]), mine)
    {
      ghost var points := buf[..len];
      var filtered := 0;
      for i := 0 to len
        invariant filtered <= i && len == |points| <= buf.Length
        invariant buf[..filtered] == Filter(points[..i], NotIn(mine))
        invariant forall j :: i <= j < len ==> buf[j] == points[j]
        invariant owners == old(owners) - Gone(points[..i], mine)
      {
        var h := buf[i];
        assert points[..i + 1] == points[..i] + [h];
        FilterSnoc(points[..i], h, NotIn(mine));
        GoneSnoc(old(owners), points[..i], h, mine);
        if h !in toRemove {
          buf[filtered] := h;
          filtered := filtered + 1;
          assert buf[..filtered] == buf[..filtered - 1] + [h];
        } else {
          owners := owners - {h};
        }
      }
      assert points[..len] == points;
      len := filtered;
    }

    method RemoveNode(id: string) returns (r: Result<()>)
      requires Valid()
      modifies this`len, this`owners, this`nodes, buf
      ensures Valid()
      ensures id !in old(nodes) ==> r == Err(NodeNotFound) && State() == old(State())
      ensures id in old(nodes) ==>
                r == Ok(()) && State() == Removed(old(State()), id, PointsOf(hashKey, virtualNodes, id))
    {
      if id !in nodes {
        return Err(NodeNotFound);
      }
      ghost var s, mine := State(), PointsOf(hashKey, virtualNodes, id);
      var toRemove := PointSet(id);
      FilterPoints(toRemove, mine);
      nodes := nodes - {id};
      ChangeKeepsConsistent(s, Remove(id), _ => mine);
      r := Ok(());
    }

    /** sort.Search followed by the wrap to zero. */
    method Search(h: Hash) returns (idx: nat)
      requires Valid()
      ensures idx <= len && (len > 0 ==> idx < len)
      ensures Clockwise(buf[..len], h) == buf[idx..len] + buf[..idx]
    {
      var lo, hi := 0, len;
      while lo < hi
        invariant lo <= hi <= len
        invariant forall i :: 0 <= i < lo ==> buf[i] < h
        invariant forall i :: hi <= i < len ==> buf[i] >= h
      {
        var mid := (lo + hi) / 2;
        if buf[mid] >= h {
          forall i | mid < i < len ensures buf[i] >= h {
            assert HashLeq(buf[..len][mid], buf[..len][i]);
          }
          hi := mid;
        } else {
          forall i | 0 <= i < mid ensures buf[i] < h {
            assert HashLeq(buf[..len][i], buf[..len][mid]);
          }
          lo := mid + 1;
        }
      }
      idx := lo;
      ClockwiseIsRotation(buf[..len], h, idx);
      assert buf[..len][idx..] == buf[idx..len] && buf[..len][..idx] == buf[..idx];
      if idx >= len {
        idx := 0;
        assert buf[len..len] + buf[..len] == buf[0..len] + buf[..0];
      }
    }

    method GetNode(key: string) returns (r: Result<Node>)
      requires Valid()
      ensures len == 0 ==> r == Err(NoNodes)
      ensures len > 0 ==> r == Ok(OwnerOf(State(), hashKey(key)))
    {
      if len == 0 {
        return Err(NoNodes);
      }
      var idx := Search(hashKey(key));
      assert Clockwise(buf[..len], hashKey(key))[0] == buf[idx];
      assert buf[idx] in buf[..len];
      return Ok(owners[buf[idx]]);
    }

    /** The i-th node met on the lap that starts at index `start`. */
    method NodeAt(start: nat, i: nat, ghost h: Hash) returns (node: Node)
      requires Valid() && start < len && i < len && Clockwise(buf[..len], h) == buf[start..len] + buf[..start]
      ensures |Lap(State(), h)| == len && node == Lap(State(), h)[i]
    {
      var idx := (start + i) % len;
      WrapAround(start, i, len);
      assert (buf[start..len] + buf[..start])[i] == buf[idx];
      ClockwiseOwned(State(), h);
      assert buf[idx] in Clockwise(buf[..len], h);
      node := owners[buf[idx]];
    }

    /** The collecting loop of GetNSuccessors: it ends within one lap if the lap meets enough nodes. */
    method Collect(start: nat, want: int, ghost h: Hash) returns (result: seq<Node>)
      requires Valid() && start <= len && (len > 0 ==> start < len)
      requires Clockwise(buf[..len], h) == buf[start..len] + buf[..start]
      requires want <= |Distinct(Lap(State(), h))|
      ensures result == if want <= 0 then [] else Distinct(Lap(State(), h))[..want]
    {
      ghost var lap := Lap(State(), h);
      var seen: set<string> := {};
      result := [];
      var i := 0;
      while |result| < want
        invariant i <= |lap| == len && result == Distinct(lap[..i])
        invariant if want <= 0 then result == [] else |result| <= want
        invariant seen == IdsOf(result)
        decreases len - i
      {
        LapNotExhausted(lap, i, want);
        var node := NodeAt(start, i, h);
        DistinctStep(lap, i);
        SeenIds(result, node.id);
        if node.id !in seen {
          IdsSnoc(result, node);
          seen := seen + {node.id};
          result := result + [node];
        }
        i := i + 1;
      }
      if want > 0 {
        TakeWanted(lap, i, want);
      }
    }

    method GetNSuccessors(key: string, n: int) returns (r: Result<seq<Node>>)
      requires Valid() && Min(n, |nodes|) <= |Distinct(Lap(State(), hashKey(key)))|
      ensures |nodes| == 0 ==> r == Err(NoNodes)
      ensures |nodes| > 0 ==> r == Ok(Replicas(State(), hashKey(key), n))
    {
      if |nodes| == 0 {
        return Err(NoNodes);
      }
      var want := if n > |nodes| then |nodes| else n;
      var start := Search(hashKey(key));
      var result := Collect(start, want, hashKey(key));
      r := Ok(result);
    }

    method Size() returns (n: nat)
      ensures n == |nodes|
    {
      n := |nodes|;
    }
  }

  lemma {:induction false} GoneSnoc(owners: map<Hash, Node>, points: seq<Hash>, h: Hash, mine: seq<Hash>)
    ensures owners - Gone(points + [h], mine)
         == if h in mine then owners - Gone(points, mine) - {h} else owners - Gone(points, mine)
  {
    assert Gone(points + [h], mine) == if h in mine then Gone(points, mine) + {h} else Gone(points, mine);
  }

  lemma {:induction false} OwnAllSnoc(owners: map<Hash, Node>, mine: seq<Hash>, node: Node, h: Hash)
    ensures OwnAll(owners, mine + [h], node) == OwnAll(owners, mine, node)[h := node]
  {
  }

  lemma {:induction false} DistinctStep(lap: seq<Node>, i: nat)
    requires i < |lap|
    ensures var before := Distinct(lap[..i]);
            Distinct(lap[..i + 1]) == if Seen(before, lap[i].id) then before else before + [lap[i]]
  {
    assert lap[..i + 1][..i] == lap[..i];
  }

  lemma {:induction false} LapNotExhausted(lap: seq<Node>, i: nat, want: nat)
    requires i <= |lap| && |Distinct(lap[..i])| < want <= |Distinct(lap)|
    ensures i < |lap|
  {
    assert lap[..|lap|] == lap;
  }

  lemma {:induction false} TakeWanted(lap: seq<Node>, i: nat, want: nat)
    requires i <= |lap| && |Distinct(lap[..i])| == want
    ensures want <= |Distinct(lap)| && Distinct(lap[..i]) == Distinct(lap)[..want]
  {
    DistinctGrows(lap, i);
  }

  lemma {:induction false} SeenIds(list: seq<Node>, id: string)
    ensures id in IdsOf(list) <==> Seen(list, id)
  {
  }

  lemma {:induction false} WrapAround(start: nat, i: nat, len: nat)
    requires start < len && i < len
    ensures (start + i) % len == if start + i < len then start + i else start + i - len
  {
    if start + i >= len {
      assert start + i == 1 * len + (start + i - len);
    }
  }
}
