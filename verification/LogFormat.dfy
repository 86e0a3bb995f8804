/** The binary record format of the write-ahead log, and what replay reads back from it. */
module LogFormat {
  import opened Common
  import opened StorageTypes

  const HEADER_SIZE := 17

  // ---- big-endian integers ----

  function Pow256(k: nat): (p: nat)
    ensures p >= 1
  {
    if k == 0 then 1 else 256 * Pow256(k - 1)
  }

  lemma {:induction false} Pow256Values()
    ensures Pow256(4) == TWO_32 && Pow256(8) == TWO_64
  {
    assert Pow256(2) == 0x1_0000;
    assert Pow256(4) == TWO_32;
    assert Pow256(6) == 0x1_0000_0000_0000;
  }

  /** The low `width` bytes of `n`, most significant first: Go's unsigned conversion and write. */
  function BigEndian(n: nat, width: nat): (s: Bytes)
    ensures |s| == width
  {
    if width == 0 then [] else BigEndian(n / 256, width - 1) + [n % 256]
  }

  /** The unsigned number in the `width` bytes at `at`. */
  function NumberAt(s: Bytes, at: nat, width: nat): nat
    requires at + width <= |s|
  {
    if width == 0 then 0 else 256 * NumberAt(s, at, width - 1) + s[at + width - 1]
  }

  lemma {:induction false} NumberBound(s: Bytes, at: nat, width: nat)
    requires at + width <= |s|
    ensures NumberAt(s, at, width) < Pow256(width)
  {
    if width == 0 {
    } else {
      NumberBound(s, at, width - 1);
    }
  }

  lemma {:induction false} NumberReadsBack(s: Bytes, at: nat, n: nat, width: nat)
    requires n < Pow256(width) && at + width <= |s| && s[at..at + width] == BigEndian(n, width)
    ensures NumberAt(s, at, width) == n
  {
    if width == 0 {
    } else {
      SliceOfSlice(s, at, at + width, 0, width - 1);
      assert s[at..at + width][width - 1] == s[at + width - 1];
      assert BigEndian(n, width)[0..width - 1] == BigEndian(n / 256, width - 1);
      NumberReadsBack(s, at, n / 256, width - 1);
    }
  }

  function Unsigned64(t: Int64): nat {
    if t < 0 then t + TWO_64 else t
  }

  function Signed64(u: nat): Int64
    requires u < TWO_64
  {
    if u < 0x8000_0000_0000_0000 then u else u - TWO_64
  }

  // ---- records ----

  function Header(e: LogEntry): (s: Bytes)
    ensures |s| == HEADER_SIZE
  {
    BigEndian(Unsigned64(e.timestamp), 8) + BigEndian(|e.key|, 4) + BigEndian(|e.value|, 4) + [e.op]
  }

  function RecordSize(e: LogEntry): nat {
    HEADER_SIZE + |e.key| + |e.value|
  }

  /** The bytes Append writes for one entry. */
  function Encode(e: LogEntry): (s: Bytes)
    ensures |s| == RecordSize(e)
  {
    Header(e) + e.key + e.value
  }

  function EncodeAll(es: seq<LogEntry>): Bytes {
    if es == [] then [] else Encode(es[0]) + EncodeAll(es[1..])
  }

  /** Whether the two 32-bit length fields can hold the lengths. */
  predicate Fits(e: LogEntry) {
    |e.key| < TWO_32 && |e.value| < TWO_32
  }

  predicate AllFit(es: seq<LogEntry>) {
    forall i :: 0 <= i < |es| ==> Fits(es[i])
  }

  /** The k-th digit of `n` to the base 256, counted from the least significant. */
  function Digit(n: nat, k: nat): Byte {
    if k == 0 then n % 256 else Digit(n / 256, k - 1)
  }

  /** A big-endian number is written most significant digit first. */
  lemma {:induction false} BigEndianDigits(n: nat, width: nat, i: nat)
    requires i < width
    ensures BigEndian(n, width)[i] == Digit(n, width - 1 - i)
  {
    if i == width - 1 {
    } else {
      BigEndianDigits(n / 256, width - 1, i);
    }
  }

  lemma {:induction false} TimestampBits(t: Int64)
    ensures Unsigned64(t) == t as int % TWO_64
  {
  }

  lemma {:induction false} HeaderLayout(e: LogEntry, i: nat)
    requires i < 17
    ensures i < 8 ==> Header(e)[i] == Digit(e.timestamp as int % TWO_64, 7 - i)
    ensures 8 <= i < 12 ==> Header(e)[i] == Digit(|e.key|, 11 - i)
    ensures 12 <= i < 16 ==> Header(e)[i] == Digit(|e.value|, 15 - i)
    ensures i == 16 ==> Header(e)[i] == e.op
  {
    HeaderFields(e);
    TimestampBits(e.timestamp);
    if i < 8 {
      BigEndianDigits(Unsigned64(e.timestamp), 8, i);
      assert Header(e)[i] == Header(e)[0..8][i];
    } else if i < 12 {
      BigEndianDigits(|e.key|, 4, i - 8);
      assert Header(e)[i] == Header(e)[8..12][i - 8];
    } else if i < 16 {
      BigEndianDigits(|e.value|, 4, i - 12);
      assert Header(e)[i] == Header(e)[12..16][i - 12];
    }
  }

  /** The layout of a record: timestamp modulo 2^64, the two lengths, the operation, the key, the value. */
  lemma {:induction false} RecordLayout(e: LogEntry, i: nat)
    requires i < |Encode(e)|
    ensures |Encode(e)| == 17 + |e.key| + |e.value|
    ensures i < 8 ==> Encode(e)[i] == Digit(e.timestamp as int % TWO_64, 7 - i)
    ensures 8 <= i < 12 ==> Encode(e)[i] == Digit(|e.key|, 11 - i)
    ensures 12 <= i < 16 ==> Encode(e)[i] == Digit(|e.value|, 15 - i)
    ensures i == 16 ==> Encode(e)[i] == e.op
    ensures 17 <= i < 17 + |e.key| ==> Encode(e)[i] == e.key[i - 17]
    ensures i >= 17 + |e.key| ==> Encode(e)[i] == e.value[i - 17 - |e.key|]
  {
    if i < 17 {
      HeaderLayout(e, i);
      assert Encode(e)[i] == Header(e)[i];
    }
  }

  // ---- reading back ----

  function TimestampAt(log: Bytes, at: nat): Int64
    requires at + HEADER_SIZE <= |log|
  {
    NumberBound(log, at, 8);
    Pow256Values();
    Signed64(NumberAt(log, at, 8))
  }

  function KeyLenAt(log: Bytes, at: nat): nat
    requires at + HEADER_SIZE <= |log|
  {
    NumberAt(log, at + 8, 4)
  }

  function ValueLenAt(log: Bytes, at: nat): nat
    requires at + HEADER_SIZE <= |log|
  {
    NumberAt(log, at + 12, 4)
  }

  /** Where the record whose header starts at `at` would end. */
  function RecordEnd(log: Bytes, at: nat): (end: nat)
    requires at + HEADER_SIZE <= |log|
    ensures end >= at + HEADER_SIZE
  {
    at + HEADER_SIZE + KeyLenAt(log, at) + ValueLenAt(log, at)
  }

  /** `n` bytes taken one by one from the reader at position `at`. */
  function ReadBytes(log: Bytes, at: nat, n: nat): (s: Bytes)
    requires at + n <= |log|
    ensures |s| == n
  {
    if n == 0 then [] else ReadBytes(log, at, n - 1) + [log[at + n - 1]]
  }

  lemma {:induction false} ReadBytesIsSlice(log: Bytes, at: nat, n: nat)
    requires at + n <= |log|
    ensures ReadBytes(log, at, n) == log[at..at + n]
  {
    if n == 0 {
    } else {
      ReadBytesIsSlice(log, at, n - 1);
    }
  }

  function EntryAt(log: Bytes, at: nat): LogEntry
    requires at + HEADER_SIZE <= |log| && RecordEnd(log, at) <= |log|
  {
    var key := ReadBytes(log, at + HEADER_SIZE, KeyLenAt(log, at));
    var value := ReadBytes(log, at + HEADER_SIZE + KeyLenAt(log, at), ValueLenAt(log, at));
    LogEntry(TimestampAt(log, at), key, value, log[at + 16], at)
  }

  function Prepend(es: seq<LogEntry>, rest: Result<seq<LogEntry>>): Result<seq<LogEntry>> {
    match rest
    case Ok(more) => Ok(es + more)
    case Err(e) => Err(e)
  }

  /**
   * What replaying the log from byte `at` yields. A short header or a short payload ends the
   * replay quietly; a payload of which not even one byte is there is an error.
   */
  function Parse(log: Bytes, at: nat): Result<seq<LogEntry>>
    decreases |log| - at
  {
    if |log| < at + HEADER_SIZE then Ok([])
    else if RecordEnd(log, at) <= |log| then Prepend([EntryAt(log, at)], Parse(log, RecordEnd(log, at)))
    else if |log| == at + HEADER_SIZE then Err(TruncatedPayload)
    else Ok([])
  }

  /** The entries as replay reports them: each with its own byte offset. */
  function WithOffsets(es: seq<LogEntry>, at: nat): (r: seq<LogEntry>)
    ensures |r| == |es|
  {
    if es == [] then [] else [es[0].(offset := at)] + WithOffsets(es[1..], at + RecordSize(es[0]))
  }

  /** Each reported offset is the number of bytes in front of the record. */
  lemma {:induction false} OffsetsAreTrue(es: seq<LogEntry>, at: nat, i: nat)
    requires i < |es|
    ensures WithOffsets(es, at)[i] == es[i].(offset := at + |EncodeAll(es[..i])|)
  {
    if i == 0 {
    } else {
      OffsetsAreTrue(es[1..], at + RecordSize(es[0]), i - 1);
      assert es[..i][1..] == es[1..][..i - 1];
    }
  }

  lemma {:induction false} EncodeAllConcat(a: seq<LogEntry>, b: seq<LogEntry>)
    ensures EncodeAll(a + b) == EncodeAll(a) + EncodeAll(b)
  {
    if a == [] {
      assert a + b == b;
    } else {
      assert (a + b)[1..] == a[1..] + b;
      EncodeAllConcat(a[1..], b);
    }
  }

  // ---- replay undoes append ----

  lemma {:induction false} HeaderFields(e: LogEntry)
    ensures Header(e)[0..8] == BigEndian(Unsigned64(e.timestamp), 8) && Header(e)[16] == e.op
    ensures Header(e)[8..12] == BigEndian(|e.key|, 4) && Header(e)[12..16] == BigEndian(|e.value|, 4)
  {
  }

  /** A header on disk reads back as the fields it was made from. */
  lemma {:induction false} HeaderReadsBack(log: Bytes, at: nat, e: LogEntry)
    requires Fits(e) && at + HEADER_SIZE <= |log| && log[at..at + HEADER_SIZE] == Header(e)
    ensures TimestampAt(log, at) == e.timestamp && KeyLenAt(log, at) == |e.key|
    ensures ValueLenAt(log, at) == |e.value| && log[at + 16] == e.op
  {
    HeaderFields(e);
    SliceOfSlice(log, at, at + HEADER_SIZE, 0, 8);
    SliceOfSlice(log, at, at + HEADER_SIZE, 8, 12);
    SliceOfSlice(log, at, at + HEADER_SIZE, 12, 16);
    assert log[at + 16] == log[at..at + HEADER_SIZE][16];
    Pow256Values();
    NumberReadsBack(log, at, Unsigned64(e.timestamp), 8);
    NumberReadsBack(log, at + 8, |e.key|, 4);
    NumberReadsBack(log, at + 12, |e.value|, 4);
  }

  lemma {:induction false} EncodeParts(e: LogEntry)
    ensures var s, keyEnd := Encode(e), HEADER_SIZE + |e.key|;
            s[0..HEADER_SIZE] == Header(e) && s[HEADER_SIZE..keyEnd] == e.key && s[keyEnd..RecordSize(e)] == e.value
  {
  }

  lemma {:induction false} PartsReadBack(log: Bytes, at: nat, e: LogEntry)
    requires Fits(e) && at + RecordSize(e) <= |log| && log[at..at + HEADER_SIZE] == Header(e)
    requires log[at + HEADER_SIZE..at + HEADER_SIZE + |e.key|] == e.key
    requires log[at + HEADER_SIZE + |e.key|..at + RecordSize(e)] == e.value
    ensures RecordEnd(log, at) == at + RecordSize(e) && EntryAt(log, at) == e.(offset := at)
  {
    HeaderReadsBack(log, at, e);
    ReadBytesIsSlice(log, at + HEADER_SIZE, |e.key|);
    ReadBytesIsSlice(log, at + HEADER_SIZE + |e.key|, |e.value|);
  }

  lemma {:induction false} EntryReadsBack(log: Bytes, at: nat, e: LogEntry)
    requires Fits(e) && at + RecordSize(e) <= |log| && log[at..at + RecordSize(e)] == Encode(e)
    ensures RecordEnd(log, at) == at + RecordSize(e) && EntryAt(log, at) == e.(offset := at)
  {
    var n, keyEnd := RecordSize(e), HEADER_SIZE + |e.key|;
    EncodeParts(e);
    assert log[at..at + HEADER_SIZE] == Header(e) by {
      SliceOfSlice(log, at, at + n, 0, HEADER_SIZE);
    }
    assert log[at + HEADER_SIZE..at + keyEnd] == e.key by {
      SliceOfSlice(log, at, at + n, HEADER_SIZE, keyEnd);
    }
    assert log[at + keyEnd..at + n] == e.value by {
      SliceOfSlice(log, at, at + n, keyEnd, n);
    }
    PartsReadBack(log, at, e);
  }

  /** The first record and the others, as slices of the log. */
  lemma {:induction false} FirstRecord(log: Bytes, at: nat, es: seq<LogEntry>, end: nat)
    requires es != [] && at <= end <= |log| && log[at..end] == EncodeAll(es)
    ensures at + RecordSize(es[0]) <= end && log[at..at + RecordSize(es[0])] == Encode(es[0])
    ensures log[at + RecordSize(es[0])..end] == EncodeAll(es[1..])
  {
    var first, others := Encode(es[0]), EncodeAll(es[1..]);
    assert log[at..end] == first + others;
    SliceOfSlice(log, at, end, 0, |first|);
    SliceOfSlice(log, at, end, |first|, end - at);
    assert (first + others)[0..|first|] == first && (first + others)[|first|..end - at] == others;
  }

  lemma {:induction false} PrependConcat(a: seq<LogEntry>, b: seq<LogEntry>, rest: Result<seq<LogEntry>>)
    ensures Prepend(a, Prepend(b, rest)) == Prepend(a + b, rest) && Prepend([], rest) == rest
  {
    if rest.Ok? {
      assert a + (b + rest.value) == a + b + rest.value && [] + rest.value == rest.value;
    }
  }

  /** Where the records of `es`, read from `at` on, end; None if the log does not hold them there. */
  function DecodedEnd(log: Bytes, at: nat, es: seq<LogEntry>): Option<nat>
    decreases es
  {
    if es == [] then Some(at)
    else if && at + HEADER_SIZE <= |log|
            && RecordEnd(log, at) <= |log|
            && EntryAt(log, at) == es[0].(offset := at)
    then DecodedEnd(log, RecordEnd(log, at), es[1..])
    else None
  }

  lemma {:induction false} FirstDecodes(log: Bytes, at: nat, es: seq<LogEntry>, end: nat)
    requires es != [] && Fits(es[0]) && at <= end <= |log| && log[at..end] == EncodeAll(es)
    ensures at + RecordSize(es[0]) <= end && log[at + RecordSize(es[0])..end] == EncodeAll(es[1..])
    ensures DecodedEnd(log, at, es) == DecodedEnd(log, at + RecordSize(es[0]), es[1..])
  {
    FirstRecord(log, at, es, end);
    EntryReadsBack(log, at, es[0]);
  }

  lemma {:induction false} EncodedDecodes(log: Bytes, at: nat, es: seq<LogEntry>, end: nat)
    requires AllFit(es) && at <= end <= |log| && log[at..end] == EncodeAll(es)
    ensures DecodedEnd(log, at, es) == Some(end)
    decreases es
  {
    if es == [] {
    } else {
      FirstDecodes(log, at, es, end);
      EncodedDecodes(log, at + RecordSize(es[0]), es[1..], end);
    }
  }

  lemma {:induction false} DecodesParse(log: Bytes, at: nat, es: seq<LogEntry>, end: nat)
    requires DecodedEnd(log, at, es) == Some(end)
    ensures Parse(log, at) == Prepend(WithOffsets(es, at), Parse(log, end))
    decreases es
  {
    if es == [] {
      PrependConcat([], [], Parse(log, at));
    } else {
      var next := RecordEnd(log, at);
      assert next == at + RecordSize(es[0]);
      DecodesParse(log, next, es[1..], end);
      PrependConcat([es[0].(offset := at)], WithOffsets(es[1..], next), Parse(log, end));
    }
  }

  lemma {:induction false} PrependNothing(es: seq<LogEntry>)
    ensures Prepend(es, Ok([])) == Ok(es)
  {
    assert es + [] == es;
  }

  /** Whole records are read back one by one, up to whatever follows them at `end`. */
  lemma {:induction false} RecordsReadBack(log: Bytes, at: nat, es: seq<LogEntry>, end: nat)
    requires AllFit(es) && at <= end <= |log| && log[at..end] == EncodeAll(es)
    ensures Parse(log, at) == Prepend(WithOffsets(es, at), Parse(log, end))
  {
    EncodedDecodes(log, at, es, end);
    DecodesParse(log, at, es, end);
  }

  /** Replaying from any record boundary `at` returns exactly the remaining entries, each with its true offset. */
  lemma {:induction false} ReplayUndoesAppend(log: Bytes, at: nat, es: seq<LogEntry>)
    requires AllFit(es) && at <= |log| && log[at..] == EncodeAll(es)
    ensures Parse(log, at) == Ok(WithOffsets(es, at))
  {
    assert log[at..] == log[at..|log|];
    RecordsReadBack(log, at, es, |log|);
    PrependNothing(WithOffsets(es, at));
  }

  /** `cut` bytes of the record of `e` form the one cut that replay does not tolerate. */
  predicate HeaderOnlyCut(e: LogEntry, cut: nat) {
    cut == HEADER_SIZE && |e.key| + |e.value| > 0
  }

  lemma {:induction false} TornTailParse(log: Bytes, at: nat, e: LogEntry, cut: nat)
    requires Fits(e) && cut < RecordSize(e) && at + cut == |log| && log[at..] == Encode(e)[..cut]
    ensures Parse(log, at) == if HeaderOnlyCut(e, cut) then Err(TruncatedPayload) else Ok([])
  {
    if cut >= HEADER_SIZE {
      assert log[at..at + HEADER_SIZE] == log[at..][..HEADER_SIZE] == Header(e);
      HeaderReadsBack(log, at, e);
    }
  }

  /**
   * A crash part-way through a record: replay still returns exactly the whole records in front,
   * unless the cut falls right behind the header of a record with a payload; then, and only then,
   * it fails.
   */
  lemma {:induction false} TornTailReplay(log: Bytes, at: nat, es: seq<LogEntry>, end: nat, e: LogEntry, cut: nat)
    requires AllFit(es) && Fits(e) && cut < RecordSize(e)
    requires at <= end <= |log| && log[at..end] == EncodeAll(es) && log[end..] == Encode(e)[..cut]
    ensures Parse(log, at) == if HeaderOnlyCut(e, cut) then Err(TruncatedPayload) else Ok(WithOffsets(es, at))
  {
    RecordsReadBack(log, at, es, end);
    TornTailParse(log, end, e, cut);
    PrependNothing(WithOffsets(es, at));
  }

  /** The 32-bit length fields are the only limit: a record is read back exactly when they fit. */
  lemma {:induction false} ReadsBackExactlyWhenFits(log: Bytes, at: nat, e: LogEntry)
    requires at <= |log| && log[at..] == Encode(e)
    ensures Parse(log, at) == Ok([e.(offset := at)]) <==> Fits(e)
  {
    if Fits(e) {
      assert EncodeAll([e]) == Encode(e);
      ReplayUndoesAppend(log, at, [e]);
      assert WithOffsets([e], at) == [e.(offset := at)];
    } else {
      Pow256Values();
      NumberBound(log, at + 8, 4);
      NumberBound(log, at + 12, 4);
      if Parse(log, at).Ok? && RecordEnd(log, at) <= |log| {
        assert |EntryAt(log, at).key| < TWO_32 && |EntryAt(log, at).value| < TWO_32;
        assert Parse(log, at).value[0] == EntryAt(log, at);
      }
    }
  }
}
