/** What the history of an object means: all its commits in order, of which the newest are
    kept in a ring. */
module History {
  import opened Timestamps
  import Modulo

  /** One commit: when and by which process it was made, the time the user gave to the data,
      the data. */
  datatype Entry = Entry(ts: Timestamp, proc: nat, dataTs: Timestamp, data: seq<int>)

  const EMPTY := Entry(0, 0, 0, [])

  datatype Mode = Last | Older | Younger | DataTime | DataOlder | DataYounger {
    /** The time this mode looks at. */
    function Key(e: Entry): Timestamp {
      if this in {Last, Older, Younger} then e.ts else e.dataTs
    }

    predicate Upwards() { this in {Younger, DataYounger} }

    /** Whether the walk from the newest commit backwards ends here; for the modes that
        look for something younger, whether it has gone one too far. */
    predicate Stops(want: Timestamp, e: Entry) {
      if this == Last && want == 0 then true
      else if this in {Older, DataOlder} then Key(e) < want
      else Key(e) <= want
    }
  }

  /** Commit j can be seen: it is kept, and no commit since has a time below 2^32, which a
      scan takes for an empty slot. */
  ghost predicate Visible(log: seq<Entry>, oldest: nat, j: int) {
    oldest <= j < |log| && forall i :: j <= i < |log| ==> Hi(log[i].ts) != 0
  }

  /** j answers the query. */
  ghost predicate Answers(log: seq<Entry>, oldest: nat, mode: Mode, want: Timestamp, j: int) {
    && Visible(log, oldest, j)
    && if mode.Upwards() then
         && (forall i :: j <= i < |log| ==> !mode.Stops(want, log[i]))
         && (Visible(log, oldest, j - 1) ==> mode.Stops(want, log[j - 1]))
       else
         && mode.Stops(want, log[j])
         && forall i :: j < i < |log| ==> !mode.Stops(want, log[i])
  }

  ghost predicate Nondecreasing(log: seq<Entry>) {
    forall i, j :: 0 <= i < j < |log| ==> log[i].ts <= log[j].ts
  }

  ghost predicate Increasing(log: seq<Entry>) {
    forall i, j :: 0 <= i < j < |log| ==> log[i].ts < log[j].ts
  }

  // ------------------------------------------------------------------- the ring

  function Oldest(count: nat, n: nat, lost: bool): nat {
    var first := if lost then count - n + 1 else count - n;
    if first < 0 then 0 else first
  }

  function Target(head: int, n: nat): (t: nat)
    requires n > 0
    ensures t < n
  {
    if head < 0 then 0 else (head + 1) % n
  }

  /** The ring keeps the n newest commits; `lost` says that the oldest of n has been made
      invalid to make room for the next one. */
  ghost predicate Keeps(slots: seq<Entry>, head: int, log: seq<Entry>, lost: bool) {
    var n := |slots|;
    && n > 0
    && head == (if |log| == 0 then -1 else (|log| - 1) % n)
    && (forall j :: Oldest(|log|, n, lost) <= j < |log| ==> slots[j % n] == log[j])
    && (forall i :: |log| <= i < n ==> slots[i].ts == 0)
    && (lost ==> slots[|log| % n].ts == 0)
  }

  lemma TargetIs(log: seq<Entry>, head: int, n: nat)
    requires n > 0 && head == (if |log| == 0 then -1 else (|log| - 1) % n)
    ensures Target(head, n) == |log| % n
  {
    if |log| > 0 {
      Modulo.Succ(|log| - 1, n);
    } else {
      Modulo.SmallId(0, n);
    }
  }

  lemma SlotsDiffer(count: nat, n: nat, j: nat)
    requires n > 0 && count - n < j < count
    ensures j % n != count % n
  {
    if j % n == count % n { Modulo.Apart(j, count, n); }
  }

  /** Invalidating the slot after the head drops the oldest commit of a full ring. */
  lemma Invalidated(slots: seq<Entry>, head: int, log: seq<Entry>, lost: bool, e: Entry)
    requires Keeps(slots, head, log, lost) && e.ts == 0
    ensures Keeps(slots[|log| % |slots| := e], head, log, true)
  {
    var n := |slots|;
    var slots' := slots[|log| % n := e];
    forall j | Oldest(|log|, n, true) <= j < |log| ensures slots'[j % n] == log[j] {
      SlotsDiffer(|log|, n, j);
    }
  }

  /** A commit fills the slot after the head. */
  lemma Committed(slots: seq<Entry>, head: int, log: seq<Entry>, lost: bool, e: Entry)
    requires Keeps(slots, head, log, lost)
    ensures Keeps(slots[|log| % |slots| := e], |log| % |slots|, log + [e], false)
  {
    var n := |slots|;
    var slots' := slots[|log| % n := e];
    forall j | Oldest(|log| + 1, n, false) <= j < |log| + 1 ensures slots'[j % n] == (log + [e])[j] {
      if j < |log| { SlotsDiffer(|log|, n, j); }
    }
    forall i | |log| + 1 <= i < n ensures slots'[i].ts == 0 {
      Modulo.SmallId(|log|, n);
    }
  }

  // ------------------------------------------------------------- walking backwards

  /** The slot of the newest commit. */
  lemma NewestSlot(slots: seq<Entry>, head: int, log: seq<Entry>, lost: bool)
    requires Keeps(slots, head, log, lost)
    ensures 0 <= (head + |slots|) % |slots| < |slots|
    ensures var n := |slots|; var s := (head + n) % n;
      && (Visible(log, Oldest(|log|, n, lost), |log| - 1) <==> Hi(slots[s].ts) != 0)
      && (|log| > 0 ==> s == (|log| - 1) % n == head)
  {
    var n := |slots|;
    if |log| > 0 {
      Modulo.Shift(|log| - 1, n);
      Modulo.Shift(head, n);
      Modulo.SmallId(head, n);
      if lost && n == 1 { Modulo.Apart(|log| - 1, |log|, 1); }
    } else {
      Modulo.SmallId(n - 1, n);
    }
  }

  /** From the slot of a visible commit one slot back: either the commit before it, or the
      wrap-around check or an invalid slot ends the scan. */
  lemma SlotBefore(slots: seq<Entry>, head: int, log: seq<Entry>, lost: bool, p: int)
    requires Keeps(slots, head, log, lost) && Visible(log, Oldest(|log|, |slots|, lost), p)
    ensures 0 <= (p % |slots| - 1 + |slots|) % |slots| < |slots|
    ensures var n := |slots|; var s := (p % n - 1 + n) % n;
      && (Visible(log, Oldest(|log|, n, lost), p - 1) <==> s != head && Hi(slots[s].ts) != 0)
      && (Visible(log, Oldest(|log|, n, lost), p - 1) ==> s == (p - 1) % n)
  {
    var n := |slots|;
    Modulo.Pred(p, n);
    if p - 1 >= Oldest(|log|, n, lost) {
      if (p - 1) % n == (|log| - 1) % n { Modulo.Apart(p - 1, |log| - 1, n); }
    } else if p >= 1 {
      Modulo.Shift(p - 1, n);
    } else if |log| < n {
      Modulo.SmallId(n - 1, n);
      Modulo.SmallId(0, n);
    } else {
      Modulo.SmallId(0, n);
      Modulo.SmallId(n - 1, n);
    }
  }

  lemma TailSlot(slots: seq<Entry>, head: int, log: seq<Entry>, lost: bool)
    requires Keeps(slots, head, log, lost)
    ensures var n := |slots|;
      slots[|log| % n].ts == if !lost && |log| >= n then log[|log| - n].ts else 0
  {
    var n := |slots|;
    if !lost && |log| >= n {
      Modulo.Shift(|log| - n, n);
    } else if !lost {
      Modulo.SmallId(|log|, n);
    }
  }
}
