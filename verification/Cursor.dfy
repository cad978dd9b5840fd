/** The slot cursor: it stays on one commit of the history and moves relative to it. */
module Cursor {
  import opened Timestamps
  import opened History
  import opened Ring
  import Modulo

  /** Commit times are strictly increasing and not zero. */
  ghost predicate Times(log: seq<Entry>) {
    Increasing(log) && forall i :: 0 <= i < |log| ==> log[i].ts > 0
  }

  /** No valid commit is in the slot that t stands for. */
  ghost predicate Empty(count: nat, n: nat, lost: bool, t: int)
    requires n > 0
  {
    t % n >= count || (lost && t % n == count % n)
  }

  /** What a checked move by `offset` from commit k comes to. */
  ghost function MoveOutcome(count: nat, n: nat, lost: bool, k: nat, offset: int): Outcome
    requires n > 0
  {
    var t, oldest := k + offset, Oldest(count, n, lost);
    if Empty(count, n, lost, t) then NotFound
    else if k < oldest || t < oldest then HistWrap
    else if t >= count then TooFast
    else Done
  }

  /** The commit in a slot that is not empty. */
  lemma Occupant(slots: seq<Entry>, head: int, log: seq<Entry>, lost: bool, t: int) returns (m: nat)
    requires Keeps(slots, head, log, lost) && !Empty(|log|, |slots|, lost, t)
    ensures Oldest(|log|, |slots|, lost) <= m < |log|
    ensures m % |slots| == t % |slots| && slots[t % |slots|] == log[m]
  {
    var n, i := |slots|, t % |slots|;
    if |log| < n {
      Modulo.SmallId(i, n);
      m := i;
    } else {
      var d := (|log| - 1 - i) % n;
      m := |log| - 1 - d;
      var q := (|log| - 1 - i) / n;
      assert |log| - 1 - i == n * q + d;
      assert m == q * n + i;
      Modulo.Unique(m, n, q, i);
      if lost && m == |log| - n { Modulo.Shift(|log| - n, n); }
    }
  }

  lemma EmptySlot(slots: seq<Entry>, head: int, log: seq<Entry>, lost: bool, t: int)
    requires Keeps(slots, head, log, lost) && Times(log)
    ensures Empty(|log|, |slots|, lost, t) <==> slots[t % |slots|].ts == 0
  {
    if !Empty(|log|, |slots|, lost, t) {
      var m := Occupant(slots, head, log, lost, t);
    }
  }

  /** A cursor's commit is still there exactly if its slot has the time remembered. */
  lemma Origin(slots: seq<Entry>, head: int, log: seq<Entry>, lost: bool, k: nat)
    requires Keeps(slots, head, log, lost) && Times(log) && k < |log|
    ensures slots[k % |slots|].ts == log[k].ts <==> k >= Oldest(|log|, |slots|, lost)
  {
    if k < Oldest(|log|, |slots|, lost) {
      EmptySlot(slots, head, log, lost, k);
      if !Empty(|log|, |slots|, lost, k) {
        var m := Occupant(slots, head, log, lost, k);
      }
    }
  }

  lemma Landing(slots: seq<Entry>, head: int, log: seq<Entry>, lost: bool, k: nat, offset: int)
    requires Keeps(slots, head, log, lost) && Times(log)
    requires Oldest(|log|, |slots|, lost) <= k < |log| && -|slots| < offset < |slots|
    requires !Empty(|log|, |slots|, lost, k + offset)
    ensures var t := k + offset; var e := slots[t % |slots|];
      && (t < Oldest(|log|, |slots|, lost) ==> offset < 0 && e.ts > log[k].ts)
      && (t >= |log| ==> offset > 0 && e.ts < log[k].ts)
      && (Oldest(|log|, |slots|, lost) <= t < |log| ==>
            e == log[t] && (offset < 0 ==> e.ts <= log[k].ts) && (offset > 0 ==> e.ts >= log[k].ts))
  {
    var t, n := k + offset, |slots|;
    var m := Occupant(slots, head, log, lost, t);
    if m < t { Modulo.Apart(m, t, n); }
    if t < m { Modulo.Apart(t, m, n); }
  }

  /** The remainder of C, which has the sign of the dividend. */
  function TruncatedMod(x: int, n: nat): int
    requires n > 0
  {
    if x < 0 then -(-x % n) else x % n
  }

  lemma TruncatedIs(x: int, n: nat)
    requires n > 0
    ensures var d := TruncatedMod(x, n);
      && 0 - n < d < n && (d > 0 ==> x > 0) && (d < 0 ==> x < 0)
      && (0 - n < x < n ==> d == x)
  {
    if 0 - n < x < n { Modulo.SmallId(if x < 0 then -x else x, n); }
  }

  /** It differs from the dividend by whole turns of the ring. */
  lemma TruncatedTurns(x: int, n: nat) returns (q: int)
    requires n > 0
    ensures x == n * q + TruncatedMod(x, n)
  {
    if x >= 0 {
      q := x / n;
    } else {
      q := -(-x / n);
      assert -x == n * (-x / n) + -x % n;
    }
  }

  lemma SlotAfter(k: int, d: int, n: nat)
    requires n > 0 && 0 - n < d < n
    ensures 0 <= (k % n + d + n) % n < n && (k % n + d + n) % n == (k + d) % n
  {
    Modulo.Sum(k, d + n, n);
    Modulo.Shift(k + d, n);
  }

  /** The checks of a move, in the order the code makes them, amount to its outcome.  Only the
      remainder of the offset counts for the slot, but the offset itself for the comparisons. */
  lemma Checks(slots: seq<Entry>, head: int, log: seq<Entry>, lost: bool, k: nat, offset: int)
    requires Keeps(slots, head, log, lost) && Times(log) && k < |log|
    ensures var n := |slots|; var t := k + TruncatedMod(offset, n);
      var scan, origin := slots[t % n].ts, slots[k % n].ts;
      && MoveOutcome(|log|, n, lost, k, t - k) == (
           if scan == 0 then NotFound
           else if origin != log[k].ts then HistWrap
           else if offset < 0 && scan > log[k].ts then HistWrap
           else if offset > 0 && scan < log[k].ts then TooFast
           else Done)
      && (MoveOutcome(|log|, n, lost, k, t - k) == Done ==> 0 <= t < |log| && slots[t % n] == log[t])
  {
    var d := TruncatedMod(offset, |slots|);
    TruncatedIs(offset, |slots|);
    EmptySlot(slots, head, log, lost, k + d);
    Origin(slots, head, log, lost, k);
    if k >= Oldest(|log|, |slots|, lost) && !Empty(|log|, |slots|, lost, k + d) {
      Landing(slots, head, log, lost, k, d);
    }
  }

  lemma NewestOutcome(slots: seq<Entry>, head: int, log: seq<Entry>, lost: bool)
    requires Keeps(slots, head, log, lost) && |log| > 0
    ensures MoveOutcome(|log|, |slots|, lost, |log| - 1, 0) ==
      if Oldest(|log|, |slots|, lost) < |log| then Done else NotFound
  {
    var n := |slots|;
    if (|log| - 1) % n == |log| % n { Modulo.Apart(|log| - 1, |log|, n); }
    if |log| < n { Modulo.SmallId(|log| - 1, n); }
  }

  class Slot {
    var oid: nat
    var historySlot: int
    var committedTs: Timestamp

    constructor (oid: nat)
      ensures this.oid == oid && historySlot == -1 && committedTs == 0
    {
      this.oid, historySlot, committedTs := oid, -1, 0;
    }

    /** The cursor is on commit k. */
    ghost predicate On(ring: Ring, k: int)
      reads this, ring, ring.slots
    {
      && ring.slots.Length > 0
      && 0 <= k < |ring.log|
      && historySlot == k % ring.slots.Length
      && committedTs == ring.log[k].ts
    }

    /** Where the cursor is after a move. */
    ghost function Moved(ring: Ring, k: int, offset: int): int
      reads ring
      requires ring.slots.Length > 0
    {
      k + TruncatedMod(offset, ring.slots.Length)
    }

    /** Mode 0 goes to the newest commit, mode 1 moves and checks where the cursor was, mode -1
        moves without a check. */
    method ReadSlot(ring: Ring, mode: int, offset: int, ghost k: nat) returns (r: Outcome)
      requires ring.Valid() && Times(ring.log) && mode in {-1, 0, 1}
      requires mode == 1 ==> On(ring, k)
      requires mode == -1 ==> -1 <= historySlot < ring.slots.Length
      modifies this
      ensures oid == old(oid)
      ensures mode == 0 ==> r == (if ring.First() < |ring.log| then Done else NotFound)
      ensures mode == 0 && r == Done ==> On(ring, |ring.log| - 1)
      ensures mode == 0 && r == NotFound ==> committedTs == if ring.log == [] then old(committedTs) else 0
      ensures mode != 0 && oid != ring.meta.oid ==>
        r == NotFound && historySlot == old(historySlot) && committedTs == old(committedTs)
      ensures mode == 1 && oid == ring.meta.oid ==>
        && r == MoveOutcome(|ring.log|, ring.slots.Length, ring.lost, k, Moved(ring, k, offset) - k)
        && (r == Done ==> On(ring, Moved(ring, k, offset)))
      ensures mode == -1 && oid == ring.meta.oid ==>
        var t := Moved(ring, old(historySlot), offset);
        && r == (if Empty(|ring.log|, ring.slots.Length, ring.lost, t) then NotFound else Done)
        && historySlot == t % ring.slots.Length
        && (r == Done ==> exists m :: ring.First() <= m && On(ring, m))
    {
      if mode == 0 {
        r := Newest(ring);
      } else if oid != ring.meta.oid {
        r := NotFound;
      } else if mode == 1 {
        r := Move(ring, offset, k);
      } else {
        r := MoveUnchecked(ring, offset);
      }
    }

    /** The slot that is `offset` further on. */
    method Step(ring: Ring, offset: int, ghost k: int)
      requires ring.Valid() && historySlot == (if historySlot < 0 then k else k % ring.slots.Length)
      requires -1 <= historySlot < ring.slots.Length
      modifies this`historySlot
      ensures 0 <= historySlot < ring.slots.Length && historySlot == Moved(ring, k, offset) % ring.slots.Length
    {
      var n := ring.slots.Length;
      TruncatedIs(offset, n);
      SlotAfter(k, TruncatedMod(offset, n), n);
      if historySlot < 0 { Modulo.Shift(-1 + TruncatedMod(offset, n), n); }
      historySlot := (historySlot + TruncatedMod(offset, n) + n) % n;
    }

    method Newest(ring: Ring) returns (r: Outcome)
      requires ring.Valid() && Times(ring.log)
      modifies this
      ensures oid == old(oid)
      ensures r == (if ring.First() < |ring.log| then Done else NotFound)
      ensures r == Done ==> On(ring, |ring.log| - 1)
      ensures r == NotFound ==> committedTs == if ring.log == [] then old(committedTs) else 0
    {
      historySlot := ring.head;
      if historySlot < 0 { return NotFound; }
      committedTs := 0;
      ghost var k := |ring.log| - 1;
      NewestOutcome(ring.slots[..], ring.head, ring.log, ring.lost);
      Checks(ring.slots[..], ring.head, ring.log, ring.lost, k, 0);
      Step(ring, 0, k);
      var scanTs := ring.slots[historySlot].ts;
      if scanTs == 0 { return NotFound; }
      committedTs := scanTs;
      r := Done;
    }

    method Move(ring: Ring, offset: int, ghost k: nat) returns (r: Outcome)
      requires ring.Valid() && Times(ring.log) && On(ring, k)
      modifies this
      ensures oid == old(oid)
      ensures r == MoveOutcome(|ring.log|, ring.slots.Length, ring.lost, k, Moved(ring, k, offset) - k)
      ensures r == Done ==> On(ring, Moved(ring, k, offset))
    {
      var last := historySlot;
      Checks(ring.slots[..], ring.head, ring.log, ring.lost, k, offset);
      Step(ring, offset, k);
      var scanTs := ring.slots[historySlot].ts;
      if scanTs == 0 { return NotFound; }
      var finalTs := ring.slots[last].ts;
      if finalTs != committedTs { return HistWrap; }
      if offset < 0 && scanTs > committedTs { return HistWrap; }
      if offset > 0 && scanTs < committedTs { return TooFast; }
      committedTs := scanTs;
      r := Done;
    }

    method MoveUnchecked(ring: Ring, offset: int) returns (r: Outcome)
      requires ring.Valid() && Times(ring.log) && -1 <= historySlot < ring.slots.Length
      modifies this
      ensures oid == old(oid)
      ensures var t := Moved(ring, old(historySlot), offset);
        && r == (if Empty(|ring.log|, ring.slots.Length, ring.lost, t) then NotFound else Done)
        && historySlot == t % ring.slots.Length
        && (r == Done ==> exists m :: ring.First() <= m && On(ring, m))
    {
      ghost var t := Moved(ring, historySlot, offset);
      if historySlot >= 0 { Modulo.SmallId(historySlot, ring.slots.Length); }
      Step(ring, offset, historySlot);
      EmptySlot(ring.slots[..], ring.head, ring.log, ring.lost, t);
      var scanTs := ring.slots[historySlot].ts;
      if scanTs == 0 { return NotFound; }
      committedTs := scanTs;
      ghost var m := Occupant(ring.slots[..], ring.head, ring.log, ring.lost, t);
      assert On(ring, m);
      r := Done;
    }

    /** readdataslot_relative: move, copy, check again; after a failure start over at the
        newest commit. */
    method Relative(ring: Ring, offset: int, room: nat, ghost k: nat) returns (r: Outcome, got: seq<int>)
      requires ring.Valid() && Times(ring.log) && oid == ring.meta.oid && On(ring, k)
      modifies this
      ensures r == MoveOutcome(|ring.log|, ring.slots.Length, ring.lost, k, Moved(ring, k, offset) - k)
      ensures r == Done ==>
        var t := Moved(ring, k, offset);
        && On(ring, t)
        && got == if |ring.log[t].data| < room then ring.log[t].data else ring.log[t].data[..room]
      ensures r != Done && ring.First() < |ring.log| ==> On(ring, |ring.log| - 1)
    {
      got := [];
      r := ReadSlot(ring, 1, offset, k);
      if r != Done {
        var ignored := ReadSlot(ring, 0, 0, k);
        return;
      }
      Checks(ring.slots[..], ring.head, ring.log, ring.lost, k, offset);
      StillThere(ring, k, Moved(ring, k, offset) - k);
      got := CopyHere(ring, room, Moved(ring, k, offset));
    }

    /** Copy, then check that the commit is still there; with no writer in between it is. */
    method CopyHere(ring: Ring, room: nat, ghost t: nat) returns (got: seq<int>)
      requires ring.Valid() && Times(ring.log) && oid == ring.meta.oid && On(ring, t)
      requires ring.slots[t % ring.slots.Length] == ring.log[t]
      requires MoveOutcome(|ring.log|, ring.slots.Length, ring.lost, t, 0) == Done
      modifies this
      ensures On(ring, t) && got == if |ring.log[t].data| < room then ring.log[t].data else ring.log[t].data[..room]
    {
      TruncatedIs(0, ring.slots.Length);
      var data := ring.slots[historySlot].data;
      got := if |data| < room then data else data[..room];
      var r := ReadSlot(ring, 1, 0, t);
      if r != Done { assert false; }
    }

    lemma StillThere(ring: Ring, k: nat, d: int)
      requires ring.slots.Length > 0 && MoveOutcome(|ring.log|, ring.slots.Length, ring.lost, k, d) == Done
      ensures k + d >= 0 && MoveOutcome(|ring.log|, ring.slots.Length, ring.lost, k + d, 0) == Done
    {}
  }
}
