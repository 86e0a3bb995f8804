/** Value types shared by every component: results, errors and fixed-width integers. */
module Common {
  /** The sentinel errors of the storage, hashing and replication packages. */
  datatype Error =
    | EngineClosed
    | EmptyKey
    | KeyNotFound
    | TruncatedPayload
    | LogFailed
    | SnapshotFailed
    | NoNodes
    | NodeNotFound
    | InsufficientReplicas
    | ReplicaFailed

  datatype Result<+T> = Ok(value: T) | Err(error: Error)

  datatype Option<+T> = None | Some(value: T)

  /** Go strings and byte slices are both sequences of bytes. */
  type Byte = b: int | 0 <= b < 256
  type Bytes = seq<Byte>

  type Int64 = n: int | -0x8000_0000_0000_0000 <= n < 0x8000_0000_0000_0000

  const TWO_32 := 0x1_0000_0000
  const TWO_64 := 0x1_0000_0000_0000_0000

  function Min(a: int, b: int): int {
    if a < b then a else b
  }

  /** A number in decimal, as formatted by %d. */
  function Decimal(n: nat): string {
    if n < 10 then ['0' + n as char] else Decimal(n / 10) + ['0' + (n % 10) as char]
  }

  predicate IsDigit(c: char) {
    '0' <= c <= '9'
  }

  /** The number a string of digits stands for. */
  function ReadDecimal(s: string): int
    decreases s
  {
    if s == [] then 0 else 10 * ReadDecimal(s[..|s| - 1]) + (s[|s| - 1] as int - '0' as int)
  }

  /** Decimal writes digits only, and they read back as the number; so different numbers look different. */
  lemma {:induction false} DecimalReadsBack(n: nat)
    ensures Decimal(n) != [] && ReadDecimal(Decimal(n)) == n
    ensures forall i :: 0 <= i < |Decimal(n)| ==> IsDigit(Decimal(n)[i])
  {
    if n < 10 {
      var c := '0' + n as char;
      assert Decimal(n) == [c] && [c][..0] == [];
      assert ReadDecimal([c]) == 10 * ReadDecimal([c][..0]) + n;
    } else {
      DecimalReadsBack(n / 10);
      var c := '0' + (n % 10) as char;
      var s := Decimal(n / 10) + [c];
      assert s[..|s| - 1] == Decimal(n / 10);
    }
  }

  lemma {:induction false} SliceOfSlice<T>(s: seq<T>, a: nat, b: nat, i: nat, j: nat)
    requires a <= b <= |s| && i <= j <= b - a
    ensures s[a..b][i..j] == s[a + i..a + j]
  {
    forall k | 0 <= k < j - i ensures s[a..b][i..j][k] == s[a + i..a + j][k] {
    }
  }

  /** The elements of `s` that satisfy `keep`, in their original order. */
  function Filter<T>(s: seq<T>, keep: T -> bool): seq<T> {
    if s == [] then []
    else if keep(s[0]) then [s[0]] + Filter(s[1..], keep)
    else Filter(s[1..], keep)
  }

  lemma {:induction false} FilterConcat<T>(a: seq<T>, b: seq<T>, keep: T -> bool)
    ensures Filter(a + b, keep) == Filter(a, keep) + Filter(b, keep)
  {
    if a == [] {
      assert a + b == b;
    } else {
      assert (a + b)[1..] == a[1..] + b && (a + b)[0] == a[0];
      FilterConcat(a[1..], b, keep);
      assert [a[0]] + (Filter(a[1..], keep) + Filter(b, keep)) == [a[0]] + Filter(a[1..], keep) + Filter(b, keep);
    }
  }

  lemma {:induction false} FilterCons<T>(x: T, s: seq<T>, keep: T -> bool)
    ensures Filter([x] + s, keep) == if keep(x) then [x] + Filter(s, keep) else Filter(s, keep)
  {
    assert ([x] + s)[1..] == s;
  }

  lemma {:induction false} FilterSnoc<T>(s: seq<T>, x: T, keep: T -> bool)
    ensures Filter(s + [x], keep) == Filter(s, keep) + (if keep(x) then [x] else [])
  {
    FilterConcat(s, [x], keep);
  }

  lemma {:induction false} FilterMember<T>(s: seq<T>, keep: T -> bool, x: T)
    ensures x in Filter(s, keep) <==> x in s && keep(x)
  {
    if s == [] {
    } else {
      FilterMember(s[1..], keep, x);
    }
  }

  /** A filter that keeps everything is the identity. */
  lemma {:induction false} FilterAll<T>(s: seq<T>, keep: T -> bool)
    requires forall x :: x in s ==> keep(x)
    ensures Filter(s, keep) == s
  {
    if s == [] {
    } else {
      FilterAll(s[1..], keep);
    }
  }

  lemma {:induction false} FilterNone<T>(s: seq<T>, keep: T -> bool)
    requires forall x :: x in s ==> !keep(x)
    ensures Filter(s, keep) == []
  {
    if s == [] {
    } else {
      FilterNone(s[1..], keep);
    }
  }

  /** Two filters can be applied in either order, or as one. */
  lemma {:induction false} FilterFilter<T>(s: seq<T>, p: T -> bool, q: T -> bool)
    ensures Filter(Filter(s, p), q) == Filter(s, x => p(x) && q(x))
    ensures Filter(Filter(s, p), q) == Filter(Filter(s, q), p)
  {
    if s == [] {
    } else {
      FilterFilter(s[1..], p, q);
      FilterCons(s[0], Filter(s[1..], p), q);
      FilterCons(s[0], Filter(s[1..], q), p);
    }
  }

  lemma {:induction false} SubsetSize<T>(a: set<T>, b: set<T>)
    requires a <= b
    ensures |a| <= |b|
  {
    if a == {} {
    } else {
      var x :| x in a;
      SubsetSize(a - {x}, b - {x});
    }
  }
}
