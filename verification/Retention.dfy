/** What the ring's answers mean for the whole history: times in order, and how long a commit
    is kept when the cycle time of the writer is watched. */
module Retention {
  import opened Database
  import opened Timestamps
  import opened History
  import opened Ring

  // --------------------------------------------------------- queries by commit time

  /** For commit times in order the walks find what their names say. */
  lemma ByTime(log: seq<Entry>, oldest: nat, mode: Mode, want: Timestamp, j: int)
    requires Nondecreasing(log) && mode in {Last, Older, Younger} && want > 0
    requires Answers(log, oldest, mode, want, j)
    ensures forall i :: Visible(log, oldest, i) ==>
      && (mode == Last ==> (log[i].ts <= want <==> i <= j))
      && (mode == Older ==> (log[i].ts < want <==> i <= j))
      && (mode == Younger ==> (log[i].ts > want <==> i >= j))
  {}

  /** What a query asks for, in terms of the times of the commits alone. */
  ghost predicate PlainAnswer(log: seq<Entry>, oldest: nat, mode: Mode, want: Timestamp, j: int) {
    && Visible(log, oldest, j)
    && match mode
       case Last => if want == 0 then j == |log| - 1
                    else log[j].ts <= want && forall i :: j < i < |log| ==> log[i].ts > want
       case Older => log[j].ts < want && forall i :: j < i < |log| ==> log[i].ts >= want
       case Younger =>
         && (forall i :: j <= i < |log| ==> log[i].ts > want)
         && (Visible(log, oldest, j - 1) ==> log[j - 1].ts <= want)
       case DataTime => log[j].dataTs <= want && forall i :: j < i < |log| ==> log[i].dataTs > want
       case DataOlder => log[j].dataTs < want && forall i :: j < i < |log| ==> log[i].dataTs >= want
       case DataYounger =>
         && (forall i :: j <= i < |log| ==> log[i].dataTs > want)
         && (Visible(log, oldest, j - 1) ==> log[j - 1].dataTs <= want)
  }

  /** In each of the six modes the answer of the log is this. */
  lemma AnswersPlainly(log: seq<Entry>, oldest: nat, mode: Mode, want: Timestamp, j: int)
    ensures Answers(log, oldest, mode, want, j) <==> PlainAnswer(log, oldest, mode, want, j)
  {
    if mode == Last && want == 0 { LatestAnswers(log, oldest, j); }
  }

  /** A query in any of the six modes is answered exactly if there is something visible to
      answer it with; one for something younger only looks at the newest commit to decide. */
  lemma FoundIfThere(log: seq<Entry>, oldest: nat, mode: Mode, want: Timestamp)
    ensures (exists j :: Answers(log, oldest, mode, want, j)) <==>
      if mode.Upwards() then Visible(log, oldest, |log| - 1) && !mode.Stops(want, log[|log| - 1])
      else exists i :: Visible(log, oldest, i) && mode.Stops(want, log[i])
  {
    if mode.Upwards() {
      if Visible(log, oldest, |log| - 1) && !mode.Stops(want, log[|log| - 1]) {
        var j := Lowest(log, oldest, mode, want, |log| - 1);
        assert Answers(log, oldest, mode, want, j);
      }
    } else {
      if i :| Visible(log, oldest, i) && mode.Stops(want, log[i]) {
        var j := Highest(log, oldest, mode, want, i);
        assert Answers(log, oldest, mode, want, j);
      }
    }
  }

  /** The newest commit from i on at which a downward walk stops. */
  lemma {:induction false} Highest(log: seq<Entry>, oldest: nat, mode: Mode, want: Timestamp, i: int) returns (j: int)
    requires !mode.Upwards() && Visible(log, oldest, i) && mode.Stops(want, log[i])
    ensures Answers(log, oldest, mode, want, j)
    decreases |log| - i
  {
    if k :| i < k < |log| && mode.Stops(want, log[k]) {
      j := Highest(log, oldest, mode, want, k);
    } else {
      j := i;
    }
  }

  /** The oldest commit to which an upward walk gets from i. */
  lemma {:induction false} Lowest(log: seq<Entry>, oldest: nat, mode: Mode, want: Timestamp, i: int) returns (j: int)
    requires mode.Upwards() && Visible(log, oldest, i)
    requires forall k :: i <= k < |log| ==> !mode.Stops(want, log[k])
    ensures Answers(log, oldest, mode, want, j)
    decreases i
  {
    if Visible(log, oldest, i - 1) && !mode.Stops(want, log[i - 1]) {
      j := Lowest(log, oldest, mode, want, i - 1);
    } else {
      j := i;
    }
  }

  /** Asking with the time of a commit gives that commit, the one before, the one after. */
  lemma Neighbours(log: seq<Entry>, oldest: nat, j: int)
    requires Increasing(log) && Visible(log, oldest, j) && log[j].ts > 0
    ensures Answers(log, oldest, Last, log[j].ts, j)
    ensures Visible(log, oldest, j - 1) ==> Answers(log, oldest, Older, log[j].ts, j - 1)
    ensures j + 1 < |log| ==> Answers(log, oldest, Younger, log[j].ts, j + 1)
  {}

  // --------------------------------------------------------------------- retention

  function UnsignedCeil(x: real): int {
    if x - x.Floor as real > 0.0 then (x + 1.0).Floor else x.Floor
  }

  lemma CeilIsNext(x: real)
    ensures x <= UnsignedCeil(x) as real < x + 1.0
  {}

  /** The number of slots an object gets. */
  function HistorySize(interval: real, cycle: real): int
    requires cycle > 0.0
  {
    UnsignedCeil(interval / cycle + 1.0)
  }

  /** It is the least number of slots that span the interval with one cycle less than there are
      slots. */
  lemma LeastSlots(interval: real, cycle: real)
    requires cycle > 0.0
    ensures var n := HistorySize(interval, cycle);
      (n - 1) as real * cycle >= interval && (n - 2) as real * cycle < interval
  {
    var n := HistorySize(interval, cycle);
    CeilIsNext(interval / cycle + 1.0);
    SlotsForInterval(n, cycle, interval);
    Below((n - 2) as real, interval, cycle);
  }

  lemma Below(a: real, interval: real, cycle: real)
    requires cycle > 0.0 && a < interval / cycle
    ensures a * cycle < interval
  {
    Scaled(a, interval / cycle, cycle);
  }

  lemma Scaled(a: real, b: real, c: real)
    requires a < b && c > 0.0
    ensures a * c < b * c
  {}

  lemma {:induction false} SpacedApart(log: seq<Entry>, cycle: real, i: nat, j: nat)
    requires Spaced(log, cycle) && i <= j < |log|
    requires forall k :: i <= k < |log| ==> Hi(log[k].ts) != 0
    ensures Since(log[i].ts, log[j].ts) >= (j - i) as real * cycle
    decreases j
  {
    if i < j {
      SpacedApart(log, cycle, i, j - 1);
      SinceSum(log[i].ts, log[j - 1].ts, log[j].ts);
      assert (j - i) as real * cycle == (j - 1 - i) as real * cycle + cycle;
    }
  }

  lemma SinceSum(a: Timestamp, b: Timestamp, c: Timestamp)
    ensures Since(a, b) + Since(b, c) == Since(a, c)
  {}

  /** Fewer cycles fit into an interval than it is long. */
  lemma CyclesInInterval(m: int, cycle: real, interval: real)
    requires cycle > 0.0
    ensures m as real * cycle <= interval ==> m < HistorySize(interval, cycle)
    ensures m as real * cycle < interval ==> m + 1 < HistorySize(interval, cycle)
  {
    CeilIsNext(interval / cycle + 1.0);
    if m as real * cycle <= interval { assert m as real <= interval / cycle; }
    if m as real * cycle < interval { assert (m as real) < interval / cycle; }
  }

  /** A commit no older than the history interval before the newest one is still kept. */
  lemma Retained(log: seq<Entry>, n: nat, cycle: real, interval: real, j: nat)
    requires cycle > 0.0 && n == HistorySize(interval, cycle) && Spaced(log, cycle)
    requires j < |log| && forall k :: j <= k < |log| ==> Hi(log[k].ts) != 0
    requires Since(log[j].ts, log[|log| - 1].ts) <= interval
    ensures Visible(log, Oldest(|log|, n, false), j)
  {
    SpacedApart(log, cycle, j, |log| - 1);
    CyclesInInterval(|log| - 1 - j, cycle, interval);
  }

  /** The newest of all commits up to a time. */
  ghost predicate LatestAt(log: seq<Entry>, want: Timestamp, j: int) {
    0 <= j < |log| && log[j].ts <= want && forall i :: j < i < |log| ==> log[i].ts > want
  }

  /** The latest commit up to a time within the history interval is one of the n newest. */
  lemma LatestIsKept(log: seq<Entry>, n: nat, cycle: real, interval: real, want: Timestamp, j: int)
    requires cycle > 0.0 && n == HistorySize(interval, cycle) && n > 0 && (n > 1 ==> Spaced(log, cycle))
    requires |log| > 0 && forall k :: 0 <= k < |log| ==> Hi(log[k].ts) != 0
    requires want > 0 && Since(want, log[|log| - 1].ts) <= interval && LatestAt(log, want, j)
    ensures j >= |log| - n
  {
    if j < |log| - 1 {
      var last := |log| - 1;
      if n > 1 {
        SpacedApart(log, cycle, j + 1, last);
        CyclesInInterval(last - (j + 1), cycle, interval);
      } else {
        CyclesInInterval(0, cycle, interval);
      }
    }
  }

  /** For any time within the history interval the ring gives the same answer as the whole
      history would; while a write in place is under way, unless the answer would be the
      commit that it replaces: then there is none. */
  lemma SameAnswer(log: seq<Entry>, n: nat, lost: bool, cycle: real, interval: real, want: Timestamp, j: int)
    requires cycle > 0.0 && n == HistorySize(interval, cycle) && n > 0 && (n > 1 ==> Spaced(log, cycle))
    requires |log| > 0 && forall k :: 0 <= k < |log| ==> Hi(log[k].ts) != 0
    requires want > 0 && Since(want, log[|log| - 1].ts) <= interval
    ensures Answers(log, Oldest(|log|, n, lost), Last, want, j) <==>
      LatestAt(log, want, j) && !(lost && j == |log| - n)
  {
    if LatestAt(log, want, j) { LatestIsKept(log, n, cycle, interval, want, j); }
  }

  /** So every read of a watched object, after whatever run of writes, finished or under way,
      for any time within the history interval. */
  lemma ReadsCoverInterval(ring: Ring, interval: real, want: Timestamp, j: int)
    requires ring.Valid() && ring.meta.cycleWatch
    requires ring.meta.MinCycle() > 0.0 && ring.slots.Length == HistorySize(interval, ring.meta.MinCycle())
    requires |ring.log| > 0 && forall k :: 0 <= k < |ring.log| ==> Hi(ring.log[k].ts) != 0
    requires want > 0 && Since(want, ring.log[|ring.log| - 1].ts) <= interval
    ensures ring.Answer(Last, want, j) <==>
      LatestAt(ring.log, want, j) && !(ring.lost && j == |ring.log| - ring.slots.Length)
  {
    SameAnswer(ring.log, ring.slots.Length, ring.lost, ring.meta.MinCycle(), interval, want, j);
  }

  /** The read answers as the whole history would exactly unless a write in place is under
      way and the time lies between the commit it replaces and the next. */
  lemma ReadFailsExactly(ring: Ring, interval: real, want: Timestamp)
    requires ring.Valid() && ring.meta.cycleWatch
    requires ring.meta.MinCycle() > 0.0 && ring.slots.Length == HistorySize(interval, ring.meta.MinCycle())
    requires |ring.log| > 0 && forall k :: 0 <= k < |ring.log| ==> Hi(ring.log[k].ts) != 0
    requires want > 0 && Since(want, ring.log[|ring.log| - 1].ts) <= interval
    ensures var n := ring.slots.Length;
      (forall j :: ring.Answer(Last, want, j) <==> LatestAt(ring.log, want, j)) <==>
      !(ring.lost && |ring.log| >= n && ring.log[|ring.log| - n].ts <= want
        && (n > 1 ==> want < ring.log[|ring.log| - n + 1].ts))
  {
    var log, n := ring.log, ring.slots.Length;
    forall j ensures ring.Answer(Last, want, j) <==> LatestAt(log, want, j) && !(ring.lost && j == |log| - n) {
      ReadsCoverInterval(ring, interval, want, j);
    }
    if |log| >= n && n > 1 && want < log[|log| - n + 1].ts {
      InOrder(log, ring.meta.MinCycle(), |log| - n + 1);
    }
    assert ring.lost && LatestAt(log, want, |log| - n) ==> !ring.Answer(Last, want, |log| - n);
  }

  /** Spaced commits after one are later. */
  lemma InOrder(log: seq<Entry>, cycle: real, i: nat)
    requires cycle > 0.0 && Spaced(log, cycle) && i < |log|
    requires forall k :: i <= k < |log| ==> Hi(log[k].ts) != 0
    ensures forall k :: i < k < |log| ==> log[k].ts > log[i].ts
  {
    forall k | i < k < |log| ensures log[k].ts > log[i].ts {
      SpacedApart(log, cycle, i, k);
      assert (k - i) as real * cycle >= 1.0 * cycle;
    }
  }

  /** While a write in place is under way all commits of the interval are visible exactly
      unless the one it replaces is as old as the interval is long. */
  lemma PendingCoversInterval(log: seq<Entry>, n: nat, cycle: real, interval: real)
    requires cycle > 0.0 && n == HistorySize(interval, cycle) && n > 0 && Spaced(log, cycle)
    requires |log| > 0 && forall k :: 0 <= k < |log| ==> Hi(log[k].ts) != 0
    ensures var newest := log[|log| - 1].ts;
      (forall j :: 0 <= j < |log| && Since(log[j].ts, newest) <= interval ==>
         Visible(log, Oldest(|log|, n, true), j)) <==>
      !(|log| >= n && Since(log[|log| - n].ts, newest) == interval)
  {
    var newest := log[|log| - 1].ts;
    forall j | 0 <= j < |log| && Since(log[j].ts, newest) <= interval
      ensures j >= |log| - n && (j == |log| - n ==> Since(log[j].ts, newest) == interval)
    {
      Retained(log, n, cycle, interval, j);
      if j == |log| - n {
        SpacedApart(log, cycle, j, |log| - 1);
        SlotsForInterval(n, cycle, interval);
      }
    }
    assert |log| >= n ==> !Visible(log, Oldest(|log|, n, true), |log| - n);
  }

  /** The slots but one span the interval. */
  lemma SlotsForInterval(n: int, cycle: real, interval: real)
    requires cycle > 0.0 && n == HistorySize(interval, cycle)
    ensures (n - 1) as real * cycle >= interval
  {
    CeilIsNext(interval / cycle + 1.0);
    assert (n - 1) as real >= interval / cycle;
  }

  const SECOND: Timestamp := 1000000000

  const WATCHED := Meta(7, 1, false, false, true, false, BASE, 5.0, 5.0)

  ghost predicate HasTimes(log: seq<Entry>, times: seq<Timestamp>) {
    |log| == |times| && forall i :: 0 <= i < |log| ==> log[i].ts == times[i]
  }

  /** One more commit of an object with three slots. */
  method CommitAt(ring: Ring, now: Timestamp, ghost times: seq<Timestamp>)
    requires ring.Valid() && !ring.lost && ring.slots.Length == 3 && ring.meta == WATCHED
    requires HasTimes(ring.log, times) && |times| < 3 && now > 0
    requires |times| > 0 ==> Since(times[|times| - 1], now) >= 5.0
    modifies ring`head, ring`log, ring`lost, ring.slots
    ensures ring.Valid() && !ring.lost && HasTimes(ring.log, times + [now])
  {
    var data := seq(BASE, _ => 0);
    var r := ring.Write(Caller(1, false), now, 0, data);
  }

  /** A run of writes after which a read within the interval finds nothing, because a write
      in place is under way. */
  method PendingWriteGivesUpOldest() returns (ring: Ring, interval: real, want: Timestamp, r: Outcome)
    ensures fresh(ring) && ring.Valid() && ring.meta.cycleWatch && ring.meta.MinCycle() == 5.0
    ensures ring.slots.Length == HistorySize(interval, 5.0) && |ring.log| > 0
    ensures want > 0 && Since(want, ring.log[|ring.log| - 1].ts) < interval
    ensures LatestAt(ring.log, want, 0) && forall j :: !ring.Answer(Last, want, j)
    ensures r == NotFound
  {
    interval, want := 10.0, 102 * SECOND;
    assert HistorySize(10.0, 5.0) == 3;
    ring := new Ring(WATCHED, 3);
    CommitAt(ring, 100 * SECOND, []);
    CommitAt(ring, 105 * SECOND, [100 * SECOND]);
    CommitAt(ring, 110 * SECOND, [100 * SECOND, 105 * SECOND]);
    var times := [100 * SECOND, 105 * SECOND, 110 * SECOND];
    assert [100 * SECOND, 105 * SECOND] + [110 * SECOND] == times;
    r := PendingRead(ring, want, times);
  }

  /** The read while the write is under way. */
  method PendingRead(ring: Ring, want: Timestamp, ghost times: seq<Timestamp>) returns (r: Outcome)
    requires ring.Valid() && ring.slots.Length == 3 && ring.meta == WATCHED
    requires times == [100 * SECOND, 105 * SECOND, 110 * SECOND] && HasTimes(ring.log, times)
    requires want == 102 * SECOND
    modifies ring`lost, ring.slots
    ensures ring.Valid() && ring.log == old(ring.log) && r == NotFound
    ensures LatestAt(ring.log, want, 0) && forall j :: !ring.Answer(Last, want, j)
  {
    var slot, got, size;
    ghost var k;
    r, slot := ring.PtrBegin(Caller(1, false));
    assert HistorySize(10.0, 5.0) == 3;
    assert LatestAt(ring.log, want, 0);
    forall j ensures !ring.Answer(Last, want, j) {
      ReadsCoverInterval(ring, 10.0, want, j);
    }
    r, got, size, k := ring.Read(Caller(1, false), Last, want, BASE, 111 * SECOND);
  }
}
