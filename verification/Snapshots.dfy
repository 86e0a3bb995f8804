/** Snapshot files: naming, choosing the newest, and pruning all but three. */
module Snapshots {
  import opened Common
  import opened Ordering
  import opened StorageTypes

  const MAX_SNAPSHOTS := 3
  const PREFIX := "snapshot-"
  const SUFFIX := ".snap"
  const TMP := ".tmp"

  type Files = map<string, SnapshotData>

  // ---- names ----

  function Pow10(k: nat): (p: nat)
    ensures p >= 1
  {
    if k == 0 then 1 else 10 * Pow10(k - 1)
  }

  /** `n` in decimal, zero-padded to `width` digits. */
  function Digits(n: nat, width: nat): (s: string)
    ensures |s| == width
  {
    if width == 0 then [] else Digits(n / 10, width - 1) + ['0' + (n % 10) as char]
  }

  function Codes(s: string): (c: seq<int>)
    ensures |c| == |s|
  {
    seq(|s|, i requires 0 <= i < |s| => s[i] as int)
  }

  predicate NameLess(a: string, b: string) {
    LexLess(Codes(a), Codes(b))
  }

  predicate NameLeq(a: string, b: string) {
    !NameLess(b, a)
  }

  function SnapshotName(createdAt: nat): string {
    PREFIX + Digits(createdAt, 20) + SUFFIX
  }

  predicate HasSuffix(s: string, suffix: string) {
    |suffix| <= |s| && s[|s| - |suffix|..] == suffix
  }

  /** The glob pattern of the snapshot files, less the temporary ones. */
  predicate IsSnapshotName(s: string) {
    |PREFIX| + |SUFFIX| <= |s| && PREFIX <= s && HasSuffix(s, SUFFIX) && !HasSuffix(s, TMP)
  }

  lemma {:induction false} CodesConcat(a: string, b: string)
    ensures Codes(a + b) == Codes(a) + Codes(b)
  {
  }

  lemma {:induction false} CodesInjective(a: string, b: string)
    requires Codes(a) == Codes(b)
    ensures a == b
  {
    forall i | 0 <= i < |a| ensures a[i] == b[i] {
      assert Codes(a)[i] == Codes(b)[i];
    }
  }

  /** For strings of equal length the last character only breaks ties. */
  lemma {:induction false} LexSnoc(a: seq<int>, x: int, b: seq<int>, y: int)
    requires |a| == |b|
    ensures LexLess(a + [x], b + [y]) <==> LexLess(a, b) || (a == b && x < y)
  {
    if a == [] {
      assert a + [x] == [x] && b + [y] == [y];
    } else {
      assert (a + [x])[1..] == a[1..] + [x] && (b + [y])[1..] == b[1..] + [y];
      LexSnoc(a[1..], x, b[1..], y);
      assert a[0] == b[0] && a[1..] == b[1..] ==> a == b by {
        assert a == [a[0]] + a[1..] && b == [b[0]] + b[1..];
      }
    }
  }

  lemma {:induction false} DigitsOrder(a: nat, b: nat, width: nat)
    requires a < Pow10(width) && b < Pow10(width)
    ensures LexLess(Codes(Digits(a, width)), Codes(Digits(b, width))) <==> a < b
    ensures Codes(Digits(a, width)) == Codes(Digits(b, width)) <==> a == b
  {
    if width == 0 {
    } else {
      var p, q := Digits(a / 10, width - 1), Digits(b / 10, width - 1);
      var x, y := '0' + (a % 10) as char, '0' + (b % 10) as char;
      DigitsOrder(a / 10, b / 10, width - 1);
      CodesConcat(p, [x]);
      CodesConcat(q, [y]);
      assert Codes([x]) == [x as int] && Codes([y]) == [y as int];
      LexSnoc(Codes(p), x as int, Codes(q), y as int);
      assert Codes(p) + [x as int] == Codes(q) + [y as int] ==> Codes(p) == Codes(q) && x as int == y as int by {
        var c, d := Codes(p) + [x as int], Codes(q) + [y as int];
        assert c[..width - 1] == Codes(p) && d[..width - 1] == Codes(q);
        assert c[width - 1] == x as int && d[width - 1] == y as int;
      }
    }
  }

  lemma {:induction false} Int64FitsTwentyDigits(n: nat)
    requires n < 0x8000_0000_0000_0000
    ensures n < Pow10(20)
  {
    assert Pow10(4) == 10_000;
    assert Pow10(8) == 100_000_000;
    assert Pow10(12) == 1_000_000_000_000;
    assert Pow10(16) == 10_000_000_000_000_000;
    assert Pow10(20) == 100_000_000_000_000_000_000;
  }

  /** Lexicographic order of the zero-padded names is numeric order of the creation times. */
  lemma {:induction false} NameOrder(a: Int64, b: Int64)
    requires a >= 0 && b >= 0
    ensures NameLess(SnapshotName(a), SnapshotName(b)) <==> a < b
    ensures SnapshotName(a) == SnapshotName(b) <==> a == b
  {
    Int64FitsTwentyDigits(a);
    Int64FitsTwentyDigits(b);
    DigitsOrder(a, b, 20);
    var p, q := Digits(a, 20), Digits(b, 20);
    CodesConcat(PREFIX, p);
    CodesConcat(PREFIX, q);
    CodesConcat(PREFIX + p, SUFFIX);
    CodesConcat(PREFIX + q, SUFFIX);
    LexSuffix(Codes(PREFIX) + Codes(p), Codes(PREFIX) + Codes(q), Codes(SUFFIX));
    LexPrefix(Codes(PREFIX), Codes(p), Codes(q));
    assert SnapshotName(a)[|PREFIX|..|PREFIX| + 20] == p;
    assert SnapshotName(b)[|PREFIX|..|PREFIX| + 20] == q;
  }

  lemma {:induction false} SnapshotNameMatches(n: nat)
    ensures IsSnapshotName(SnapshotName(n))
  {
    var s := SnapshotName(n);
    assert s[|s| - |SUFFIX|..] == SUFFIX;
    assert s[|s| - |TMP|..][2] == s[|s| - 2] == SUFFIX[3] == 'a';
    assert TMP[2] == 'm';
  }

  lemma {:induction false} TemporaryNameDoesNotMatch(name: string)
    ensures !IsSnapshotName(name + TMP)
  {
    assert HasSuffix(name + TMP, TMP);
  }

  lemma {:induction false} NamesTotallyOrdered()
    ensures TotalPreorder(NameLeq)
  {
    forall a: string, b: string ensures NameLeq(a, b) || NameLeq(b, a) {
      LexAsymmetric(Codes(a), Codes(b));
    }
    forall a: string, b: string, c: string | NameLeq(a, b) && NameLeq(b, c) ensures NameLeq(a, c) {
      LexLeqTransitive(Codes(a), Codes(b), Codes(c));
    }
  }

  // ---- listings ----

  function Names(files: Files): set<string> {
    set n | n in files && IsSnapshotName(n)
  }

  ghost predicate Ascending(names: seq<string>) {
    forall i, j :: 0 <= i < j < |names| ==> NameLess(names[i], names[j])
  }

  /** `names` lists the snapshot files oldest name first. */
  ghost predicate IsListing(names: seq<string>, files: Files) {
    Ascending(names) && (forall n :: n in names <==> n in Names(files))
  }

  lemma {:induction false} AscendingDistinct(names: seq<string>, i: nat, j: nat)
    requires Ascending(names) && i < |names| && j < |names| && names[i] == names[j]
    ensures i == j
  {
    LexIrreflexive(Codes(names[i]));
  }

  lemma {:induction false} ListingUnique(a: seq<string>, b: seq<string>)
    requires Ascending(a) && Ascending(b) && forall n :: n in a <==> n in b
    ensures a == b
  {
    assert a != [] ==> a[0] in b;
    assert b != [] ==> b[0] in a;
    if a != [] && b != [] {
      assert a[0] == b[0] by {
        LexAsymmetric(Codes(a[0]), Codes(b[0]));
      }
      forall n ensures n in a[1..] <==> n in b[1..] {
        TailMember(a, n);
        TailMember(b, n);
      }
      ListingUnique(a[1..], b[1..]);
      assert a == [a[0]] + a[1..] && b == [b[0]] + b[1..];
    }
  }

  lemma {:induction false} TailMember(a: seq<string>, n: string)
    requires Ascending(a) && a != []
    ensures n in a[1..] <==> n in a && n != a[0]
  {
    LexIrreflexive(Codes(a[0]));
  }

  /** Sorting a list without repetitions makes it ascending. */
  lemma {:induction false} SortedIsAscending(names: seq<string>, source: seq<string>)
    requires SortedBy(names, NameLeq) && multiset(names) == multiset(source)
    requires forall i, j :: 0 <= i < j < |source| ==> source[i] != source[j]
    ensures Ascending(names) && forall n :: n in names <==> n in source
  {
    forall n ensures n in names <==> n in source {
      assert n in multiset(names) <==> n in multiset(source);
    }
    forall i, j | 0 <= i < j < |names| ensures NameLess(names[i], names[j]) {
      if names[i] == names[j] {
        TwiceCounted(names, i, j);
        OnceCounted(source, names[i]);
        assert false;
      }
      LexTotal(Codes(names[i]), Codes(names[j]));
      if Codes(names[i]) == Codes(names[j]) {
        CodesInjective(names[i], names[j]);
      }
      assert NameLeq(names[i], names[j]);
    }
  }

  lemma {:induction false} ListingExists(names: set<string>) returns (listing: seq<string>)
    ensures Ascending(listing) && forall n :: n in listing <==> n in names
  {
    var source := DistinctList(names);
    NamesTotallyOrdered();
    SortKeeps(source, NameLeq);
    listing := Sort(source, NameLeq);
    SortedIsAscending(listing, source);
  }

  lemma {:induction false} DistinctList(names: set<string>) returns (s: seq<string>)
    ensures forall i, j :: 0 <= i < j < |s| ==> s[i] != s[j]
    ensures forall n :: n in s <==> n in names
  {
    if names == {} {
      s := [];
    } else {
      var x :| x in names;
      var rest := DistinctList(names - {x});
      s := [x] + rest;
    }
  }

  /** The snapshot files in listing order. */
  ghost function Listing(files: Files): (names: seq<string>)
    ensures IsListing(names, files)
  {
    assert exists names :: IsListing(names, files) by {
      var l := ListingExists(Names(files));
      assert IsListing(l, files);
    }
    var names :| IsListing(names, files);
    names
  }

  lemma {:induction false} ListingIs(names: seq<string>, files: Files)
    requires IsListing(names, files)
    ensures Listing(files) == names
  {
    ListingUnique(names, Listing(files));
  }

  /** What LoadLatest reads. */
  ghost function Latest(files: Files): Option<SnapshotData> {
    var names := Listing(files);
    if names == [] then None
    else
      assert names[|names| - 1] in Names(files);
      Some(files[names[|names| - 1]])
  }

  /** The file that would be read is unreadable. */
  ghost predicate LatestIsBroken(files: Files, broken: set<string>) {
    var names := Listing(files);
    names != [] && names[|names| - 1] in broken
  }

  /** How many of the oldest files pruning tries to remove. */
  function Excess(count: nat): nat {
    if count <= MAX_SNAPSHOTS then 0 else count - MAX_SNAPSHOTS
  }

  /** The files after pruning, when removing the files in `stuck` fails. */
  ghost function Pruned(files: Files, stuck: set<string>): Files {
    var names := Listing(files);
    files - (set n | n in names[..Excess(|names|)] && n !in stuck)
  }

  /** The files once the temporary file has been renamed to its final name. */
  function Renamed(files: Files, data: SnapshotData): Files
    requires data.createdAt >= 0
  {
    (files - {SnapshotName(data.createdAt) + TMP})[SnapshotName(data.createdAt) := data]
  }

  lemma {:induction false} RenamedNames(files: Files, data: SnapshotData)
    requires data.createdAt >= 0
    ensures Names(Renamed(files, data)) == Names(files) + {SnapshotName(data.createdAt)}
    ensures WellNamed(files) ==> WellNamed(Renamed(files, data))
  {
    SnapshotNameMatches(data.createdAt);
    TemporaryNameDoesNotMatch(SnapshotName(data.createdAt));
    var added := Renamed(files, data);
    if WellNamed(files) {
      forall n | n in Names(added) ensures NamedByTime(added, n) {
        if n != SnapshotName(data.createdAt) {
          assert NamedByTime(files, n);
        }
      }
    }
  }

  /** The files after a completed Write. */
  ghost function Written(files: Files, data: SnapshotData, stuck: set<string>): Files
    requires data.createdAt >= 0
  {
    Pruned(Renamed(files, data), stuck)
  }

  /** The files after a Write that may fail: until the file is renamed only a temporary file can be left. */
  ghost function WriteOutcome(files: Files, data: SnapshotData, fault: SnapshotFault, stuck: set<string>): Files
    requires data.createdAt >= 0
  {
    match fault
    case Saves => Written(files, data, stuck)
    case CreateFails => files
    case EncodeFails => files - {SnapshotName(data.createdAt) + TMP}
    case RenameFails => files[SnapshotName(data.createdAt) + TMP := data]
  }

  // ---- the newest snapshot is the one that is read ----

  predicate NamedByTime(files: Files, n: string)
    requires n in files
  {
    files[n].createdAt >= 0 && n == SnapshotName(files[n].createdAt)
  }

  /** Every snapshot file carries its creation time in its name. */
  ghost predicate WellNamed(files: Files) {
    forall n {:trigger NamedByTime(files, n)} :: n in Names(files) ==> NamedByTime(files, n)
  }

  /** Snapshot files are ordered by name exactly as they are by time. */
  lemma {:induction false} CreationOrder(files: Files, a: string, b: string)
    requires WellNamed(files) && a in Names(files) && b in Names(files)
    ensures NameLess(a, b) <==> files[a].createdAt < files[b].createdAt
    ensures a == b <==> files[a].createdAt == files[b].createdAt
  {
    assert NamedByTime(files, a) && NamedByTime(files, b);
    NameOrder(files[a].createdAt, files[b].createdAt);
  }

  /** The last name of a listing is that of the file that is read, and no other name is larger. */
  lemma {:induction false} LastListed(files: Files) returns (last: string)
    requires Names(files) != {}
    ensures last in Names(files) && Latest(files) == Some(files[last])
    ensures forall n :: n in Names(files) ==> n == last || NameLess(n, last)
  {
    var names := Listing(files);
    var x :| x in Names(files);
    assert x in names;
    last := names[|names| - 1];
    assert last in names;
    forall n | n in Names(files) ensures n == last || NameLess(n, last) {
      assert n in names;
    }
  }

  /** LoadLatest picks a snapshot with the largest creation time, and finds one if there is any. */
  lemma {:induction false} LatestIsNewest(files: Files) returns (last: string)
    requires WellNamed(files) && Names(files) != {}
    ensures last in Names(files) && Latest(files) == Some(files[last])
    ensures forall n :: n in Names(files) ==> files[n].createdAt <= files[last].createdAt
  {
    last := LastListed(files);
    forall n | n in Names(files) ensures files[n].createdAt <= files[last].createdAt {
      CreationOrder(files, n, last);
    }
  }

  /** The snapshot with the largest creation time is the one that is read. */
  lemma {:induction false} NewestIsLatest(files: Files, name: string)
    requires WellNamed(files) && name in Names(files)
    requires forall n :: n in Names(files) ==> files[n].createdAt <= files[name].createdAt
    ensures Latest(files) == Some(files[name])
  {
    var last := LatestIsNewest(files);
    CreationOrder(files, name, last);
  }

  /** Some snapshot on disk is newer than `t`. */
  ghost predicate HasNewer(files: Files, t: Int64) {
    exists n :: n in Names(files) && files[n].createdAt > t
  }

  /** Pruning removes only names that are not the last of the listing. */
  lemma {:induction false} PruneKeepsLast(files: Files, name: string, stuck: set<string>)
    requires name in Names(files) && forall n :: n in Names(files) ==> n == name || NameLess(n, name)
    ensures name in Pruned(files, stuck)
  {
    var names := Listing(files);
    forall i | 0 <= i < Excess(|names|) ensures names[i] != name {
      assert NameLess(names[i], names[|names| - 1]);
      assert names[|names| - 1] in names;
      LexAsymmetric(Codes(names[i]), Codes(names[|names| - 1]));
      LexIrreflexive(Codes(names[i]));
    }
  }

  lemma {:induction false} PrunedIsPart(files: Files, stuck: set<string>)
    ensures Names(Pruned(files, stuck)) <= Names(files)
    ensures forall n :: n in Pruned(files, stuck) ==> n in files && Pruned(files, stuck)[n] == files[n]
    ensures WellNamed(files) ==> WellNamed(Pruned(files, stuck))
  {
    var after := Pruned(files, stuck);
    if WellNamed(files) {
      forall n | n in Names(after) ensures NamedByTime(after, n) {
        assert NamedByTime(files, n);
      }
    }
  }

  lemma {:induction false} LargerNames(names: seq<string>, i: nat) returns (larger: set<string>)
    requires Ascending(names) && i < |names|
    ensures |larger| == |names| - 1 - i && forall m :: m in larger <==> m in names && NameLess(names[i], m)
    decreases |names| - i
  {
    if i == |names| - 1 {
      larger := {};
      forall m | m in names ensures !NameLess(names[i], m) {
        var j :| 0 <= j < |names| && names[j] == m;
        NotBelow(names, i, j);
      }
    } else {
      var rest := LargerNames(names, i + 1);
      larger := rest + {names[i + 1]};
      LexIrreflexive(Codes(names[i + 1]));
      forall m ensures m in larger <==> m in names && NameLess(names[i], m) {
        if m in names {
          var j :| 0 <= j < |names| && names[j] == m;
          NotBelow(names, i, j);
          NotBelow(names, i + 1, j);
        }
      }
    }
  }

  lemma {:induction false} NotBelow(names: seq<string>, i: nat, j: nat)
    requires Ascending(names) && i < |names| && j < |names|
    ensures NameLess(names[i], names[j]) <==> i < j
  {
    LexIrreflexive(Codes(names[i]));
    if j < i {
      LexAsymmetric(Codes(names[j]), Codes(names[i]));
    }
  }

  /** Pruning removes a file exactly if it is a snapshot, three or more are newer by name, and removal works. */
  lemma {:induction false} PrunedIff(files: Files, stuck: set<string>, n: string)
    requires n in files
    ensures n in Pruned(files, stuck)
       <==> n !in Names(files) || n in stuck || |set m | m in Names(files) && NameLess(n, m)| < 3
  {
    var names := Listing(files);
    if n in Names(files) {
      assert n in names;
      var i :| 0 <= i < |names| && names[i] == n;
      var larger := LargerNames(names, i);
      assert larger == set m | m in Names(files) && NameLess(n, m);
      assert n in names[..Excess(|names|)] <==> i < Excess(|names|) by {
        if n in names[..Excess(|names|)] {
          var j :| 0 <= j < Excess(|names|) && names[j] == n;
          AscendingDistinct(names, i, j);
        }
      }
    } else {
      assert forall m :: m in names[..Excess(|names|)] ==> m in names;
    }
  }

  /** Pruning never removes the newest snapshot. */
  lemma {:induction false} PruneKeepsNewest(files: Files, name: string, stuck: set<string>)
    requires WellNamed(files) && name in Names(files)
    requires forall n :: n in Names(files) ==> files[n].createdAt <= files[name].createdAt
    ensures WellNamed(Pruned(files, stuck)) && Latest(Pruned(files, stuck)) == Some(files[name])
  {
    forall n | n in Names(files) ensures n == name || NameLess(n, name) {
      CreationOrder(files, n, name);
    }
    PruneKeepsLast(files, name, stuck);
    PrunedIsPart(files, stuck);
    NewestIsLatest(Pruned(files, stuck), name);
  }

  /**
   * Which snapshot is read after a write: the new one, unless one on disk is newer; then the same as
   * before. So the new snapshot is the one read if and only if no file is newer.
   */
  lemma {:induction false} WriteBecomesLatestIff(files: Files, data: SnapshotData, stuck: set<string>)
    requires WellNamed(files) && data.createdAt >= 0
    ensures WellNamed(Written(files, data, stuck))
    ensures Latest(Written(files, data, stuck)) == if HasNewer(files, data.createdAt) then Latest(files) else Some(data)
    ensures Latest(Written(files, data, stuck)) == Some(data) <==> !HasNewer(files, data.createdAt)
  {
    var name, added := SnapshotName(data.createdAt), Renamed(files, data);
    RenamedNames(files, data);
    if HasNewer(files, data.createdAt) {
      var last := LatestIsNewest(files);
      assert files[last].createdAt > data.createdAt;
      assert last != name by {
        assert NamedByTime(files, last);
        NameOrder(files[last].createdAt, data.createdAt);
      }
      assert added[last] == files[last] by {
        TemporaryNameDoesNotMatch(name);
      }
      PruneKeepsNewest(added, last, stuck);
    } else {
      PruneKeepsNewest(added, name, stuck);
    }
  }

  /** Temporary files change nothing that is read. */
  lemma {:induction false} TemporaryFileIsInvisible(files: Files, name: string, partial: SnapshotData)
    ensures Latest(files[name + TMP := partial]) == Latest(files) == Latest(files - {name + TMP})
    ensures WellNamed(files) ==> WellNamed(files[name + TMP := partial]) && WellNamed(files - {name + TMP})
  {
    TemporaryNameDoesNotMatch(name);
    SameListing(files, files[name + TMP := partial]);
    SameListing(files, files - {name + TMP});
  }

  lemma {:induction false} SameListing(a: Files, b: Files)
    requires Names(a) == Names(b) && forall n :: n in Names(a) ==> a[n] == b[n]
    ensures Latest(a) == Latest(b) && (WellNamed(a) ==> WellNamed(b))
  {
    ListingIs(Listing(a), b);
    var names := Listing(a);
    if names != [] {
      assert names[|names| - 1] in Names(a);
    }
    if WellNamed(a) {
      forall n | n in Names(b) ensures NamedByTime(b, n) {
        assert NamedByTime(a, n);
      }
    }
  }

  /** A write that fails changes nothing that is read. */
  lemma {:induction false} FailedWriteIsInvisible(files: Files, data: SnapshotData, fault: SnapshotFault,
      stuck: set<string>)
    requires data.createdAt >= 0 && fault != Saves
    ensures Latest(WriteOutcome(files, data, fault, stuck)) == Latest(files)
    ensures WellNamed(files) ==> WellNamed(WriteOutcome(files, data, fault, stuck))
  {
    TemporaryFileIsInvisible(files, SnapshotName(data.createdAt), data);
  }

  // ---- after any sequence of writes the three newest survive ----

  /** Adds a time to an ascending list of distinct times. */
  function InsertTime(t: nat, times: seq<nat>): seq<nat> {
    if times == [] || t < times[0] then [t] + times
    else if t == times[0] then times
    else [times[0]] + InsertTime(t, times[1..])
  }

  function LastThree(times: seq<nat>): seq<nat> {
    times[Excess(|times|)..]
  }

  ghost predicate AscendingTimes(times: seq<nat>) {
    forall i, j :: 0 <= i < j < |times| ==> times[i] < times[j]
  }

  lemma {:induction false} InsertTimeKeeps(t: nat, times: seq<nat>)
    requires AscendingTimes(times)
    ensures AscendingTimes(InsertTime(t, times))
    ensures forall x :: x in InsertTime(t, times) <==> x == t || x in times
    ensures |times| <= |InsertTime(t, times)| <= |times| + 1
  {
    if times != [] && t > times[0] {
      InsertTimeKeeps(t, times[1..]);
      var rest := InsertTime(t, times[1..]);
      forall j | 0 <= j < |rest| ensures times[0] < rest[j] {
        assert rest[j] in rest;
      }
      assert times == [times[0]] + times[1..];
    }
  }

  /** Dropping the oldest of more than three times before inserting does not change the last three after. */
  lemma {:induction false} DropOldest(t: nat, times: seq<nat>)
    requires AscendingTimes(times) && |times| > MAX_SNAPSHOTS
    ensures LastThree(times) == LastThree(times[1..])
    ensures LastThree(InsertTime(t, times)) == LastThree(InsertTime(t, times[1..]))
  {
    var oldest, rest := times[0], times[1..];
    assert times == [oldest] + rest;
    LastThreeCons(oldest, rest);
    if t > oldest {
      InsertTimeKeeps(t, rest);
      LastThreeCons(oldest, InsertTime(t, rest));
    } else {
      assert rest[0] == times[1] > t;
      assert InsertTime(t, rest) == [t] + rest;
      LastThreeCons(t, rest);
      if t < oldest {
        LastThreeCons(t, times);
      }
    }
  }

  lemma {:induction false} LastThreeCons(t: nat, times: seq<nat>)
    requires |times| >= MAX_SNAPSHOTS
    ensures LastThree([t] + times) == LastThree(times)
  {
  }

  /** The last three are the end of the list, and as many as three or as there are. */
  lemma {:induction false} LastThreeIs(times: seq<nat>)
    requires AscendingTimes(times)
    ensures |LastThree(times)| <= 3 && (|LastThree(times)| == 3 || LastThree(times) == times)
    ensures LastThree(times) == times[|times| - |LastThree(times)|..]
    ensures forall x, y :: x in LastThree(times) && y in times && y !in LastThree(times) ==> y < x
  {
    var cut := |times| - |LastThree(times)|;
    forall j | cut <= j < |times| ensures times[j] in LastThree(times) {
      assert times[j] == LastThree(times)[j - cut];
    }
    forall x, y | x in LastThree(times) && y in times && y !in LastThree(times) ensures y < x {
      var i :| 0 <= i < |LastThree(times)| && LastThree(times)[i] == x;
      assert times[cut + i] == x;
    }
  }

  /** The times written are exactly the creation times of the snapshots written. */
  lemma {:induction false} TimesWrittenAre(writes: seq<SnapshotData>, t: nat)
    requires forall i :: 0 <= i < |writes| ==> writes[i].createdAt >= 0
    ensures t in TimesWritten(writes) <==> exists i :: 0 <= i < |writes| && writes[i].createdAt == t
  {
    if writes == [] {
    } else {
      var n := |writes| - 1;
      TimesWrittenAre(writes[..n], t);
      SurvivorsAreNewest(writes[..n]);
      InsertTimeKeeps(writes[n].createdAt, TimesWritten(writes[..n]));
      if i :| 0 <= i < |writes| && writes[i].createdAt == t {
        assert i < n ==> writes[..n][i].createdAt == t;
      }
      if i :| 0 <= i < |writes[..n]| && writes[..n][i].createdAt == t {
        assert writes[i].createdAt == t;
      }
    }
  }

  /** Forgetting all but the last three times before inserting does not change the last three after. */
  lemma {:induction false} LastThreeInsert(t: nat, times: seq<nat>)
    requires AscendingTimes(times)
    ensures LastThree(InsertTime(t, LastThree(times))) == LastThree(InsertTime(t, times))
  {
    if |times| > MAX_SNAPSHOTS {
      DropOldest(t, times);
      LastThreeInsert(t, times[1..]);
    } else {
      assert LastThree(times) == times;
    }
  }

  ghost function FilesAfter(writes: seq<SnapshotData>): Files
    requires forall i :: 0 <= i < |writes| ==> writes[i].createdAt >= 0
  {
    if writes == [] then map[]
    else
      var n := |writes| - 1;
      Written(FilesAfter(writes[..n]), writes[n], {})
  }

  /** All creation times ever written, ascending. */
  function TimesWritten(writes: seq<SnapshotData>): seq<nat>
    requires forall i :: 0 <= i < |writes| ==> writes[i].createdAt >= 0
  {
    if writes == [] then []
    else
      var n := |writes| - 1;
      InsertTime(writes[n].createdAt, TimesWritten(writes[..n]))
  }

  function NameList(times: seq<nat>): (names: seq<string>)
    ensures |names| == |times|
  {
    seq(|times|, i requires 0 <= i < |times| => SnapshotName(times[i]))
  }

  predicate Int64Times(times: seq<nat>) {
    forall i :: 0 <= i < |times| ==> times[i] < 0x8000_0000_0000_0000
  }

  lemma {:induction false} NameListIsListing(times: seq<nat>, files: Files)
    requires AscendingTimes(times) && Int64Times(times)
    requires forall n :: n in Names(files) <==> exists i :: 0 <= i < |times| && n == SnapshotName(times[i])
    ensures Listing(files) == NameList(times)
  {
    var names := NameList(times);
    forall i, j | 0 <= i < j < |names| ensures NameLess(names[i], names[j]) {
      NameOrder(times[i], times[j]);
    }
    forall n ensures n in names <==> n in Names(files) {
      if n in Names(files) {
        var i :| 0 <= i < |times| && n == SnapshotName(times[i]);
        assert names[i] == n;
      }
    }
    ListingIs(names, files);
  }

  /** The list of times on disk once a new snapshot is in place. */
  lemma {:induction false} RenamedListing(files: Files, times: seq<nat>, data: SnapshotData)
    requires AscendingTimes(times) && Int64Times(times) && data.createdAt >= 0
    requires Listing(files) == NameList(times)
    ensures Listing(Renamed(files, data)) == NameList(InsertTime(data.createdAt, times))
  {
    var t := data.createdAt;
    var added, all := Renamed(files, data), InsertTime(t, times);
    RenamedNames(files, data);
    InsertTimeKeeps(t, times);
    forall i | 0 <= i < |all| ensures all[i] < 0x8000_0000_0000_0000 {
      assert all[i] in all;
    }
    forall n ensures n in Names(added) <==> exists i :: 0 <= i < |all| && n == SnapshotName(all[i]) {
      InNameList(times, n);
      assert n in Names(files) <==> n in NameList(times);
      if n == SnapshotName(t) {
        assert t in all;
      } else if n in Names(added) {
        var i :| 0 <= i < |times| && n == SnapshotName(times[i]);
        assert times[i] in all;
      }
      if i :| 0 <= i < |all| && n == SnapshotName(all[i]) {
        assert all[i] in all;
      }
    }
    NameListIsListing(all, added);
  }

  lemma {:induction false} InNameList(times: seq<nat>, n: string)
    ensures n in NameList(times) <==> exists i :: 0 <= i < |times| && n == SnapshotName(times[i])
  {
    if i :| 0 <= i < |times| && n == SnapshotName(times[i]) {
      assert NameList(times)[i] == n;
    }
  }

  /** Pruning, when every removal succeeds, leaves the end of the listing. */
  lemma {:induction false} PrunedListing(files: Files)
    ensures var names := Listing(files); Listing(Pruned(files, {})) == names[Excess(|names|)..]
  {
    var names := Listing(files);
    var x, after := Excess(|names|), Pruned(files, {});
    forall n ensures n in names[x..] <==> n in Names(after) {
      SplitMember(names, x, n);
    }
    ListingIs(names[x..], after);
  }

  /** One write turns the list of times on disk into its last three after insertion. */
  lemma {:induction false} WriteListing(files: Files, times: seq<nat>, data: SnapshotData)
    requires AscendingTimes(times) && Int64Times(times) && data.createdAt >= 0
    requires Listing(files) == NameList(times)
    ensures Listing(Written(files, data, {})) == NameList(LastThree(InsertTime(data.createdAt, times)))
  {
    RenamedListing(files, times, data);
    PrunedListing(Renamed(files, data));
    var all := InsertTime(data.createdAt, times);
    assert NameList(all)[Excess(|all|)..] == NameList(LastThree(all));
  }

  lemma {:induction false} SplitMember(names: seq<string>, x: nat, n: string)
    requires Ascending(names) && x <= |names|
    ensures n in names[x..] <==> n in names && n !in names[..x]
  {
    if n in names[x..] && n in names[..x] {
      var i :| 0 <= i < x && names[i] == n;
      var j :| x <= j < |names| && names[j] == n;
      AscendingDistinct(names, i, j);
    }
  }

  /**
   * After any sequence of writes with non-negative creation times in which every removal succeeds,
   * the surviving files are exactly the newest min(3, count) of the times ever written.
   */
  lemma {:induction false} SurvivorsAreNewest(writes: seq<SnapshotData>)
    requires forall i :: 0 <= i < |writes| ==> writes[i].createdAt >= 0
    ensures AscendingTimes(TimesWritten(writes)) && Int64Times(TimesWritten(writes))
    ensures Listing(FilesAfter(writes)) == NameList(LastThree(TimesWritten(writes)))
  {
    if writes == [] {
      assert IsListing([], FilesAfter(writes));
      ListingIs([], FilesAfter(writes));
      assert NameList(LastThree([])) == [];
    } else {
      var n := |writes| - 1;
      var before, t := TimesWritten(writes[..n]), writes[n].createdAt;
      SurvivorsAreNewest(writes[..n]);
      InsertTimeKeeps(t, before);
      var all := InsertTime(t, before);
      forall i | 0 <= i < |all| ensures all[i] < 0x8000_0000_0000_0000 {
        assert all[i] in all;
      }
      WriteListing(FilesAfter(writes[..n]), LastThree(before), writes[n]);
      LastThreeInsert(t, before);
    }
  }

  // ---- the manager ----

  class SnapshotManager {
    const disk: Disk

    constructor (disk: Disk)
      ensures this.disk == disk
    {
      this.disk := disk;
    }

    method ListSnapshots() returns (names: seq<string>)
      ensures names == Listing(disk.files)
    {
      var clean: seq<string> := [];
      var todo := Names(disk.files);
      while todo != {}
        invariant forall i, j :: 0 <= i < j < |clean| ==> clean[i] != clean[j]
        invariant forall n :: n in clean ==> n !in todo
        invariant forall n :: n in Names(disk.files) <==> n in clean || n in todo
        decreases |todo|
      {
        var n :| n in todo;
        clean, todo := clean + [n], todo - {n};
      }
      NamesTotallyOrdered();
      names := SortSlice(clean, NameLeq);
      SortedIsAscending(names, clean);
      ListingIs(names, disk.files);
    }

    /** `broken` holds the files that cannot be opened or decoded; no older one is tried then. */
    method LoadLatest(broken: set<string>) returns (r: Result<Option<SnapshotData>>)
      ensures r == if LatestIsBroken(disk.files, broken) then Err(SnapshotFailed) else Ok(Latest(disk.files))
    {
      var names := ListSnapshots();
      if |names| == 0 {
        return Ok(None);
      }
      var path := names[|names| - 1];
      assert path in Names(disk.files);
      if path in broken {
        return Err(SnapshotFailed);
      }
      return Ok(Some(disk.files[path]));
    }

    /** `stuck` holds the names whose removal fails; such a failure is only logged. */
    method PruneOld(stuck: set<string>)
      modifies disk`files
      ensures disk.files == Pruned(old(disk.files), stuck)
    {
      var names := ListSnapshots();
      var i := 0;
      while i < |names| - MAX_SNAPSHOTS
        invariant 0 <= i <= Excess(|names|)
        invariant disk.files == old(disk.files) - (set n | n in names[..i] && n !in stuck)
      {
        assert names[..i + 1] == names[..i] + [names[i]];
        if names[i] !in stuck {
          disk.files := disk.files - {names[i]};
        }
        i := i + 1;
      }
    }

    method Write(data: SnapshotData, fault: SnapshotFault, stuck: set<string>) returns (r: Result<()>)
      requires data.createdAt >= 0
      modifies disk`files
      ensures r == if fault == Saves then Ok(()) else Err(SnapshotFailed)
      ensures disk.files == WriteOutcome(old(disk.files), data, fault, stuck)
    {
      var finalPath := SnapshotName(data.createdAt);
      var tmpPath := finalPath + TMP;
      if fault == CreateFails {
        return Err(SnapshotFailed);
      }
      disk.files := disk.files[tmpPath := data];
      if fault == EncodeFails {
        disk.files := disk.files - {tmpPath};
        return Err(SnapshotFailed);
      }
      if fault == RenameFails {
        return Err(SnapshotFailed);
      }
      disk.files := (disk.files - {tmpPath})[finalPath := data];
      assert disk.files == Renamed(old(disk.files), data);
      PruneOld(stuck);
      return Ok(());
    }
  }
}
