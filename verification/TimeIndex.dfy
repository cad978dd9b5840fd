/** The seek index of a recording: for every interval of time the place in the file where to
    start. */
module TimeIndex {
  import opened Database

  datatype Entry = Entry(ts: nat, off: nat)

  /** The index grows by so many entries at a time. */
  const GROWTH: nat := 6000

  /** The conversion of C, which drops the fraction. */
  function Truncate(x: real): int { if x < 0.0 then -((-x).Floor) else x.Floor }

  /** The interval after `first` in which ts lies. */
  function Interval(first: int, ts: int, length: real): int
    requires length > 0.0
  {
    Truncate(Since(first, ts) / length)
  }

  lemma QuotientAtLeast(d: real, length: real, k: int)
    requires length > 0.0
    ensures d / length >= k as real <==> d >= k as real * length
  {
    var q := d / length;
    assert d == q * length;
    if q >= k as real {
      assert (q - k as real) * length >= 0.0;
    } else {
      assert (k as real - q) * length > 0.0;
    }
  }

  /** A time lies in an interval or a later one exactly if that interval has begun. */
  lemma IntervalAtLeast(first: int, ts: int, length: real, k: int)
    requires length > 0.0 && ts >= first && k >= 0
    ensures Interval(first, ts, length) >= k <==> Since(first, ts) >= k as real * length
  {
    QuotientAtLeast(Since(first, ts), length, k);
    QuotientAtLeast(Since(first, ts), length, 0);
  }

  lemma IntervalOrder(first: int, a: int, b: int, length: real)
    requires length > 0.0 && first <= a <= b
    ensures 0 <= Interval(first, a, length) <= Interval(first, b, length)
  {
    IntervalAtLeast(first, a, length, 0);
    IntervalAtLeast(first, a, length, Interval(first, a, length));
    IntervalAtLeast(first, b, length, Interval(first, a, length));
  }

  lemma NextInterval(first: int, a: int, b: int, length: real)
    requires length > 0.0 && first <= a && Since(a, b) >= length
    ensures Interval(first, a, length) < Interval(first, b, length)
  {
    var k := Interval(first, a, length);
    IntervalAtLeast(first, a, length, 0);
    IntervalAtLeast(first, a, length, k);
    IntervalAtLeast(first, b, length, k + 1);
    assert (k + 1) as real * length == k as real * length + length;
  }

  /** Record j is the earliest of those accepted from the beginning of interval k on. */
  ghost predicate Earliest(log: seq<Entry>, length: real, k: int, j: int) {
    && 0 <= j < |log|
    && Since(log[0].ts, log[j].ts) >= k as real * length
    && forall i :: 0 <= i < j ==> Since(log[0].ts, log[i].ts) < k as real * length
  }

  /** There is one such record, and it is no later than any other from then on. */
  lemma EarliestIsOne(log: seq<Entry>, length: real, k: int, i: int, j: int)
    requires Earliest(log, length, k, j) && 0 <= i < |log| && Since(log[0].ts, log[i].ts) >= k as real * length
    ensures j <= i && (Earliest(log, length, k, i) ==> i == j)
  {}

  /** The intervals of the accepted records; there is at most one record in each. */
  ghost predicate Numbered(log: seq<Entry>, length: real, nums: seq<int>) {
    && length > 0.0 && |nums| == |log|
    && (forall i :: 0 <= i < |log| ==> log[0].ts <= log[i].ts && nums[i] == Interval(log[0].ts, log[i].ts, length))
    && (|log| > 0 ==> nums[0] == 0)
    && forall i, j :: 0 <= i < j < |nums| ==> nums[i] < nums[j]
  }

  ghost predicate EarliestNum(nums: seq<int>, k: int, j: int) {
    0 <= j < |nums| && nums[j] >= k && forall i :: 0 <= i < j ==> nums[i] < k
  }

  lemma EarliestMeans(log: seq<Entry>, length: real, nums: seq<int>, k: int, j: int)
    requires Numbered(log, length, nums) && k >= 0 && EarliestNum(nums, k, j)
    ensures Earliest(log, length, k, j)
  {
    IntervalAtLeast(log[0].ts, log[j].ts, length, k);
    forall i | 0 <= i < j ensures Since(log[0].ts, log[i].ts) < k as real * length {
      IntervalAtLeast(log[0].ts, log[i].ts, length, k);
    }
  }

  lemma OneMoreNumber(log: seq<Entry>, length: real, nums: seq<int>, e: Entry)
    requires Numbered(log, length, nums) && |log| > 0 && Since(log[|log| - 1].ts, e.ts) >= length
    ensures log[0].ts <= e.ts && nums[|nums| - 1] < Interval(log[0].ts, e.ts, length)
    ensures Numbered(log + [e], length, nums + [Interval(log[0].ts, e.ts, length)])
  {
    NextInterval(log[0].ts, log[|log| - 1].ts, e.ts, length);
  }

  ghost predicate FitsAt(e: Entry, log: seq<Entry>, nums: seq<int>, k: int)
    requires |nums| == |log|
  {
    exists j :: EarliestNum(nums, k, j) && e == log[j]
  }

  /** The entry of every interval is the earliest record from its beginning on. */
  ghost predicate Fits(entries: seq<Entry>, log: seq<Entry>, nums: seq<int>) {
    && |nums| == |log|
    && forall k :: 0 <= k < |entries| && |nums| > 0 && k <= nums[|nums| - 1] ==> FitsAt(entries[k], log, nums, k)
  }

  lemma FitsAfter(entries: seq<Entry>, entries': seq<Entry>, log: seq<Entry>, nums: seq<int>, e: Entry, idx: int)
    requires Fits(entries, log, nums) && |nums| > 0
    requires var last := nums[|nums| - 1];
      && 0 <= last < |entries| <= |entries'| && last < idx < |entries'|
      && (forall k :: 0 <= k <= last ==> entries'[k] == entries[k])
      && (forall k :: last < k <= idx ==> entries'[k] == e)
    requires forall i, j :: 0 <= i < j < |nums| ==> nums[i] < nums[j]
    ensures Fits(entries', log + [e], nums + [idx])
  {
    var log', nums', last := log + [e], nums + [idx], nums[|nums| - 1];
    forall k | 0 <= k <= idx ensures FitsAt(entries'[k], log', nums', k) {
      if k <= last {
        assert FitsAt(entries[k], log, nums, k);
        var j :| EarliestNum(nums, k, j) && entries[k] == log[j];
        assert EarliestNum(nums', k, j);
      } else {
        assert EarliestNum(nums', k, |nums|);
      }
    }
  }

  /** So the entries are in the order of time, up to that of the newest record. */
  lemma EntriesAscend(entries: seq<Entry>, log: seq<Entry>, length: real, nums: seq<int>, a: nat, b: nat)
    requires Numbered(log, length, nums) && Fits(entries, log, nums) && |nums| > 0
    requires a <= b < |entries| && b <= nums[|nums| - 1]
    ensures entries[a].ts <= entries[b].ts <= log[|log| - 1].ts
  {
    var i := RecordOf(entries, log, nums, a);
    var j := RecordOf(entries, log, nums, b);
    EarlierFirst(nums, a, b, i, j);
    RecordsAscend(log, length, nums, i, j);
    RecordsAscend(log, length, nums, j, |log| - 1);
  }

  lemma EarlierFirst(nums: seq<int>, a: int, b: int, i: int, j: int)
    requires EarliestNum(nums, a, i) && EarliestNum(nums, b, j) && a <= b
    ensures i <= j
  {}

  lemma RecordOf(entries: seq<Entry>, log: seq<Entry>, nums: seq<int>, k: nat) returns (j: nat)
    requires Fits(entries, log, nums) && |nums| > 0 && k < |entries| && k <= nums[|nums| - 1]
    ensures EarliestNum(nums, k, j) && j < |log| && entries[k] == log[j]
  {
    assert FitsAt(entries[k], log, nums, k);
    j :| EarliestNum(nums, k, j) && entries[k] == log[j];
  }

  lemma RecordsAscend(log: seq<Entry>, length: real, nums: seq<int>, i: nat, j: nat)
    requires Numbered(log, length, nums) && i <= j < |log|
    ensures log[i].ts <= log[j].ts
  {
    if log[j].ts < log[i].ts { IntervalOrder(log[0].ts, log[j].ts, log[i].ts, length); }
  }

  class TimeIndex {
    const length: real
    var entries: seq<Entry>
    var firstTs: nat
    var lastTs: nat
    var lastEntry: int

    /** The records that were accepted, and their intervals. */
    ghost var log: seq<Entry>
    ghost var nums: seq<int>

    ghost predicate Valid()
      reads this
    {
      && length > 0.0
      && lastEntry < |entries| && |entries| > 0
      && Numbered(log, length, nums)
      && (if log == [] then firstTs == 0 && lastTs == 0 && lastEntry == -1
          else 0 < firstTs == log[0].ts && lastTs == log[|log| - 1].ts && lastEntry == nums[|nums| - 1] >= 0)
      && Fits(entries, log, nums)
    }

    constructor (length: real)
      requires length > 0.0
      ensures Valid() && this.length == length && log == []
    {
      this.length := length;
      entries := seq(GROWTH, _ => Entry(0, 0));
      firstTs, lastTs, lastEntry := 0, 0, -1;
      log, nums := [], [];
    }

    /** Entries from + 1 to idx get the record; the index grows when it is about to be full. */
    method Fill(from: int, idx: int, e: Entry)
      requires -1 <= from < |entries| && from < idx
      modifies this`entries
      ensures idx < |entries| && |entries| >= old(|entries|)
      ensures forall k :: 0 <= k <= from ==> entries[k] == old(entries)[k]
      ensures forall k :: from < k <= idx ==> entries[k] == e
    {
      var i := from + 1;
      while i <= idx
        invariant from < i <= idx + 1 && i <= |entries| && |entries| >= old(|entries|)
        invariant forall k :: 0 <= k <= from ==> entries[k] == old(entries)[k]
        invariant forall k :: from < k < i ==> entries[k] == e
      {
        if i >= |entries| - 1 {
          entries := entries + seq(GROWTH, _ => Entry(0, 0));
        }
        entries := entries[i := e];
        i := i + 1;
      }
    }

    method Add(ts: int, off: int) returns (ret: int)
      requires Valid()
      modifies this
      ensures Valid() && |entries| >= old(|entries|)
      ensures ret == if ts <= 0 || off <= 0 then -1 else 0
      ensures log == if ts > 0 && off > 0 && (old(log) == [] || Since(old(lastTs), ts) >= length)
        then old(log) + [Entry(ts, off)] else old(log)
      ensures log != old(log) ==> lastEntry > old(lastEntry)
      ensures log == old(log) ==> lastEntry == old(lastEntry) && entries == old(entries)
    {
      if ts <= 0 || off <= 0 { return -1; }
      var diffToLast := Since(lastTs, ts);
      if diffToLast < length && firstTs != 0 { return 0; }
      if firstTs == 0 {
        AddFirst(Entry(ts, off));
      } else {
        AddNext(Entry(ts, off));
      }
      ret := 0;
    }

    method AddFirst(e: Entry)
      requires Valid() && log == [] && e.ts > 0
      modifies this
      ensures Valid() && log == [e] && lastEntry == 0 && |entries| == old(|entries|)
    {
      firstTs, lastTs, lastEntry := e.ts, e.ts, 0;
      entries := entries[0 := e];
      log, nums := [e], [0];
      FirstInterval(e.ts, length);
      assert EarliestNum(nums, 0, 0);
      assert FitsAt(entries[0], log, nums, 0);
    }

    method AddNext(e: Entry)
      requires Valid() && log != [] && Since(lastTs, e.ts) >= length
      modifies this
      ensures Valid() && log == old(log) + [e] && lastEntry > old(lastEntry) && |entries| >= old(|entries|)
    {
      OneMoreNumber(log, length, nums, e);
      var idx := Interval(firstTs, e.ts, length);
      Fill(lastEntry, idx, e);
      FitsAfter(old(entries), entries, log, nums, e, idx);
      lastTs, lastEntry := e.ts, idx;
      log, nums := log + [e], nums + [idx];
    }

    /** The place to start from in order to reach the given time. */
    method Lookup(ts: int) returns (off: int)
      requires Valid() && (ts > 0 || log != [] || Since(ts, 0) >= length)
      ensures ts > lastTs || log == [] ==> off == -1
      ensures log != [] && firstTs <= ts <= lastTs ==>
        exists j :: Earliest(log, length, Interval(firstTs, ts, length), j) && off == log[j].off
      ensures log != [] && ts < firstTs ==> off == if Since(ts, firstTs) < length then log[0].off else -1
    {
      if ts > lastTs { return -1; }
      var idx := Interval(firstTs, ts, length);
      if firstTs > ts { BeforeFirst(firstTs, ts, length); } else { IntervalOrder(firstTs, ts, lastTs, length); }
      if idx < 0 { return -1; }
      if firstTs <= ts {
        assert FitsAt(entries[idx], log, nums, idx);
        ghost var j :| EarliestNum(nums, idx, j) && entries[idx] == log[j];
        EarliestMeans(log, length, nums, idx, j);
      } else {
        assert FitsAt(entries[0], log, nums, 0);
      }
      if idx > lastEntry {
        idx := lastEntry;
      }
      off := entries[idx].off;
    }
  }

  lemma NegatedQuotient(d: real, length: real)
    requires length > 0.0
    ensures (-d) / length == -(d / length)
  {
    var p, q := (-d) / length, d / length;
    assert p * length == -d && q * length == d;
    assert (p + q) * length == 0.0;
  }

  /** Times before the first record count as its interval if they are near, and have none
      otherwise. */
  lemma BeforeFirst(first: int, ts: int, length: real)
    requires length > 0.0 && ts < first
    ensures if Since(ts, first) < length then Interval(first, ts, length) == 0 else Interval(first, ts, length) < 0
  {
    QuotientAtLeast(Since(ts, first), length, 1);
    QuotientAtLeast(Since(ts, first), length, 0);
    var d := Since(ts, first);
    assert Since(first, ts) == -d;
    NegatedQuotient(d, length);
  }

  lemma FirstInterval(ts: int, length: real)
    requires length > 0.0
    ensures Interval(ts, ts, length) == 0
  {}
}
