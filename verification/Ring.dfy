/** The history ring of one object as its writer and readers use it, one call at a time. */
module Ring {
  import opened Database
  import opened Timestamps
  import opened History
  import Modulo

  /** What the metadata of the object says about access and cycle times, in seconds. */
  datatype Meta = Meta(oid: nat, creator: nat, writeAllow: bool, readDeny: bool, cycleWatch: bool,
                       withholdStale: bool, sizeMax: nat, avgCycle: real, maxCycle: real)
  {
    function MinCycle(): (r: real)
      ensures r <= avgCycle && r <= maxCycle && (r == avgCycle || r == maxCycle)
    {
      if avgCycle < maxCycle then avgCycle else maxCycle
    }

    function MaxCycle(): (r: real)
      ensures r >= avgCycle && r >= maxCycle && (r == avgCycle || r == maxCycle)
    {
      if avgCycle < maxCycle then maxCycle else avgCycle
    }

    predicate MayRead(who: Caller) { !readDeny || creator == who.proc || who.admin }
  }

  datatype Outcome = Done | NotFound | Invalid | NoPerm | TooFast | HistWrap

  /** Commits since time 2^32 are at least the minimal cycle time apart. */
  ghost predicate Spaced(log: seq<Entry>, cycle: real) {
    forall i :: 0 <= i < |log| - 1 && Hi(log[i].ts) != 0 ==> Since(log[i].ts, log[i + 1].ts) >= cycle
  }

  lemma SpacedCommit(log: seq<Entry>, cycle: real, now: Timestamp, e: Entry)
    requires now <= e.ts
    requires |log| > 0 && Hi(log[|log| - 1].ts) != 0 ==> Since(log[|log| - 1].ts, now) >= cycle
    ensures Spaced(log, cycle) ==> Spaced(log + [e], cycle)
  {}

  /** Data without a time of its own gets that of its commit. */
  function Stamped(ts: Timestamp, proc: nat, dataTs: Timestamp, data: seq<int>): Entry {
    Entry(ts, proc, if dataTs == 0 then ts else dataTs, data)
  }

  class Ring {
    const meta: Meta
    const slots: array<Entry>
    var head: int
    var deletedTs: Timestamp

    /** All commits so far, and whether the slot after the head has been made invalid. */
    ghost var log: seq<Entry>
    ghost var lost: bool

    ghost predicate Valid()
      reads this, slots
    {
      && Keeps(slots[..], head, log, lost)
      && (meta.cycleWatch && slots.Length > 1 ==> Spaced(log, meta.MinCycle()))
    }

    ghost function First(): nat
      reads this
    {
      Oldest(|log|, slots.Length, lost)
    }

    constructor (meta: Meta, size: nat)
      requires size > 0
      ensures Valid() && fresh(slots) && slots.Length == size && this.meta == meta
      ensures log == [] && !lost && deletedTs == 0
    {
      this.meta := meta;
      head := -1;
      deletedTs := 0;
      slots := new Entry[size](_ => EMPTY);
      log := [];
      lost := false;
    }

    /** adj 0 goes to the newest commit and remembers its slot, adj -1 one back. */
    method HistScan(adj: int, currslot: int, firstslot: int, ghost p: int) returns (found: bool, curr: int, first: int)
      requires Valid() && (adj == 0 || adj == -1)
      requires adj == -1 ==> Visible(log, First(), p) && currslot == p % slots.Length && firstslot == head
      ensures var q := if adj == 0 then |log| - 1 else p - 1;
        && (found <==> Visible(log, First(), q))
        && (found ==> curr == q % slots.Length && slots[curr] == log[q])
      ensures first == head
    {
      curr := if adj == 0 then head else currslot + adj;
      first := if adj == 0 then head else firstslot;
      if adj == 0 {
        NewestSlot(slots[..], head, log, lost);
      } else {
        SlotBefore(slots[..], head, log, lost, p);
      }
      curr := (curr + slots.Length) % slots.Length;
      if curr == first && adj != 0 { return false, curr, first; }
      found := Hi(slots[curr].ts) != 0;
    }

    /** Slot curr holds visible commit j. */
    ghost predicate Holds(curr: int, j: int)
      reads this, slots
    {
      && 0 <= curr < slots.Length
      && Visible(log, First(), j)
      && curr == j % slots.Length
      && slots[curr] == log[j]
    }

    /** The walk of the modes that look for something not younger than a time; `steps` counts
        how often it goes one slot back. */
    method FindDown(mode: Mode, want: Timestamp) returns (found: bool, curr: int, ghost j: int, ghost steps: nat)
      requires Valid() && !mode.Upwards()
      ensures steps <= slots.Length
      ensures found ==> Answers(log, First(), mode, want, j) && Holds(curr, j)
      ensures !found ==> forall k :: !Answers(log, First(), mode, want, k)
    {
      var first;
      found, curr, first := HistScan(0, 0, 0, 0);
      j, steps := |log| - 1, 0;
      if !found { return; }
      while !mode.Stops(want, slots[curr])
        invariant Holds(curr, j) && found && steps == |log| - 1 - j
        invariant first == head
        invariant forall i :: j < i < |log| ==> !mode.Stops(want, log[i])
        decreases j
      {
        found, curr, first := HistScan(-1, curr, first, j);
        steps := steps + 1;
        if !found { return; }
        j := j - 1;
      }
    }

    /** The walk of the modes that look for something younger: it keeps the last entry but one. */
    method FindUp(mode: Mode, want: Timestamp) returns (found: bool, curr: int, ghost j: int, ghost steps: nat)
      requires Valid() && mode.Upwards()
      ensures steps <= slots.Length
      ensures found ==> Answers(log, First(), mode, want, j) && Holds(curr, j)
      ensures !found ==> forall k :: !Answers(log, First(), mode, want, k)
    {
      var first;
      found, curr, first := HistScan(0, 0, 0, 0);
      j, steps := |log| - 1, 0;
      if !found { return; }
      if mode.Stops(want, slots[curr]) { return false, curr, j, steps; }
      var next := curr;
      ghost var q := j;
      while !mode.Stops(want, slots[next])
        invariant Holds(next, q) && Holds(curr, j) && (j == q || j == q + 1) && steps == |log| - 1 - q
        invariant first == head
        invariant forall i :: j <= i < |log| ==> !mode.Stops(want, log[i])
        decreases q
      {
        curr, j := next, q;
        found, next, first := HistScan(-1, next, first, q);
        steps := steps + 1;
        if !found { return true, curr, j, steps; }
        q := q - 1;
      }
    }

    /** Commit j answers the query, and nothing forbids to hand it out. */
    ghost predicate Answer(mode: Mode, want: Timestamp, j: int)
      reads this, slots
    {
      Answers(log, First(), mode, want, j) && !(mode == Last && want == 0 && deletedTs != 0)
    }

    /** Read an entry; of longer data than the caller has room for, only the beginning. */
    method Read(who: Caller, mode: Mode, want: Timestamp, room: nat, now: Timestamp)
      returns (r: Outcome, got: Entry, size: nat, ghost j: int)
      requires Valid()
      ensures r in {Done, NoPerm, NotFound, TooFast}
      ensures r == NoPerm <==> meta.readDeny && meta.creator != who.proc && !who.admin
      ensures r == NotFound <==> meta.MayRead(who) && forall k :: !Answer(mode, want, k)
      ensures r == Done || r == TooFast ==>
        && Answer(mode, want, j)
        && got == log[j].(data := if |log[j].data| <= room then log[j].data else log[j].data[..room])
        && size == |log[j].data|
        && (r == TooFast <==> meta.withholdStale && Since(log[j].ts, now) > meta.MaxCycle())
    {
      got, size, j := EMPTY, 0, -1;
      if meta.readDeny && meta.creator != who.proc && !who.admin { return NoPerm, got, size, j; }
      if mode == Last && want == 0 && deletedTs != 0 { return NotFound, got, size, j; }
      var found, curr;
      ghost var steps;
      if mode.Upwards() {
        found, curr, j, steps := FindUp(mode, want);
      } else {
        found, curr, j, steps := FindDown(mode, want);
      }
      if !found { return NotFound, got, size, j; }
      assert Answer(mode, want, j);
      var e := slots[curr];
      got := e.(data := if |e.data| <= room then e.data else e.data[..room]);
      size := |e.data|;
      if meta.withholdStale && Since(slots[curr].ts, now) > meta.MaxCycle() {
        return TooFast, got, size, j;
      }
      r := Done;
    }

    /** A commit comes too soon after the newest one. */
    ghost predicate Hasty(now: Timestamp)
      reads this, slots
    {
      && meta.cycleWatch
      && Visible(log, First(), |log| - 1)
      && Since(log[|log| - 1].ts, now) < meta.MinCycle()
    }

    method TooSoon(now: Timestamp) returns (r: bool)
      requires Valid()
      ensures r <==> Hasty(now)
    {
      r := false;
      if meta.cycleWatch {
        var found, curr, first := HistScan(0, 0, 0, 0);
        r := found && Since(slots[curr].ts, now) < meta.MinCycle();
      }
    }

    /** The time in the slot that the next commit fills. */
    ghost function TailTime(): Timestamp
      reads this, slots
      requires slots.Length > 0
    {
      if !lost && |log| >= slots.Length then log[|log| - slots.Length].ts else 0
    }

    /** The entry is stored after the head, and the head advanced. */
    method Publish(slot: nat, e: Entry, ghost now: Timestamp)
      requires Valid() && slot == |log| % slots.Length && now <= e.ts && !Hasty(now)
      modifies this`head, this`log, this`lost, slots
      ensures Valid() && !lost && log == old(log) + [e]
    {
      Committed(slots[..], head, log, lost, e);
      if meta.cycleWatch && slots.Length > 1 {
        assert |log| > 0 && Hi(log[|log| - 1].ts) != 0 ==> Visible(log, First(), |log| - 1);
        SpacedCommit(log, meta.MinCycle(), now, e);
      }
      slots[slot] := e;
      assert slots[..] == old(slots[..])[slot := e];
      head := slot;
      log := log + [e];
      lost := false;
    }

    method Write(who: Caller, now: Timestamp, dataTs: Timestamp, data: seq<int>) returns (r: Outcome)
      requires Valid()
      modifies this`head, this`log, this`lost, slots
      ensures Valid()
      ensures r == if |data| < 24 || |data| > meta.sizeMax then Invalid
        else if !meta.writeAllow && meta.creator != who.proc && !who.admin then NoPerm
        else if old(Hasty(now)) then TooFast
        else Done
      ensures r != Done ==> log == old(log) && lost == old(lost)
      ensures r == Done ==>
        var ts := if now == old(TailTime()) then now + 1 else now;
        !lost && log == old(log) + [Entry(ts, who.proc, if dataTs == 0 then ts else dataTs, data)]
    {
      if |data| < BASE || |data| > meta.sizeMax { return Invalid; }
      if !meta.writeAllow && meta.creator != who.proc && !who.admin { return NoPerm; }
      var soon := TooSoon(now);
      if soon { return TooFast; }
      Store(who, now, dataTs, data);
      r := Done;
    }

    /** A commit whose slot has the same time gets a later one. */
    method Store(who: Caller, now: Timestamp, dataTs: Timestamp, data: seq<int>)
      requires Valid() && !Hasty(now)
      modifies this`head, this`log, this`lost, slots
      ensures Valid() && !lost
      ensures var ts := if now == old(TailTime()) then now + 1 else now;
        log == old(log) + [Entry(ts, who.proc, if dataTs == 0 then ts else dataTs, data)]
    {
      var slot := Target(head, slots.Length);
      TargetIs(log, head, slots.Length);
      TailSlot(slots[..], head, log, lost);
      var committed := now;
      if committed == slots[slot].ts {
        committed := committed + 1;
      }
      Publish(slot, Stamped(committed, who.proc, dataTs, data), now);
    }

    /** writedata_ptr_begin: the number of the slot that the caller may fill in place. */
    method PtrBegin(who: Caller) returns (r: Outcome, slot: int)
      requires Valid()
      modifies this`lost, slots
      ensures Valid() && log == old(log)
      ensures r == if meta.writeAllow || meta.creator != who.proc then Invalid else Done
      ensures r == Done ==> lost && slot == |log| % slots.Length
      ensures r != Done ==> lost == old(lost)
    {
      slot := -1;
      if meta.writeAllow || meta.creator != who.proc { return Invalid, slot; }
      slot := Target(head, slots.Length);
      TargetIs(log, head, slots.Length);
      Invalidated(slots[..], head, log, lost, slots[slot].(ts := 0));
      slots[slot] := slots[slot].(ts := 0);
      assert slots[..] == old(slots[..])[slot := slots[slot]];
      lost := true;
      r := Done;
    }

    /** writedata_ptr_commit: `dataTs` and `data` are what the caller has stored in the slot. */
    method PtrCommit(who: Caller, now: Timestamp, ptr: int, dataTs: Timestamp, data: seq<int>) returns (r: Outcome)
      requires Valid()
      modifies this`head, this`log, this`lost, slots
      ensures Valid()
      ensures r == if |data| < 24 || |data| > meta.sizeMax then Invalid
        else if meta.writeAllow || meta.creator != who.proc then Invalid
        else if old(Hasty(now)) then TooFast
        else if ptr != |old(log)| % slots.Length then Invalid
        else Done
      ensures r != Done ==> log == old(log) && lost == old(lost)
      ensures r == Done ==>
        !lost && log == old(log) + [Entry(now, who.proc, if dataTs == 0 then now else dataTs, data)]
    {
      if |data| < BASE || |data| > meta.sizeMax { return Invalid; }
      if meta.writeAllow || meta.creator != who.proc { return Invalid; }
      var soon := TooSoon(now);
      if soon { return TooFast; }
      var slot := Target(head, slots.Length);
      TargetIs(log, head, slots.Length);
      if ptr != slot { return Invalid; }
      Publish(slot, Stamped(now, who.proc, dataTs, data), now);
      r := Done;
    }
  }
  /** What is written is what a read of the latest entry gives back. */
  method WriteThenRead(ring: Ring, who: Caller, now: Timestamp, dataTs: Timestamp, data: seq<int>, room: nat)
    returns (w: Outcome, r: Outcome, got: Entry, size: nat)
    requires ring.Valid() && ring.deletedTs == 0 && ring.meta.MayRead(who)
    requires Hi(now) != 0 && !ring.meta.withholdStale
    modifies ring`head, ring`log, ring`lost, ring.slots
    ensures w == Done ==>
      && r == Done && got.ts in {now, now + 1} && got.proc == who.proc && size == |data|
      && got.dataTs == (if dataTs == 0 then got.ts else dataTs)
      && got.data == if |data| <= room then data else data[..room]
  {
    w := ring.Write(who, now, dataTs, data);
    if w == Done {
      HiMonotone(now, ring.log[|ring.log| - 1].ts);
      r, got, size := ReadLatest(ring, who, room, now);
    } else {
      r, got, size := NotFound, EMPTY, 0;
    }
  }

  method ReadLatest(ring: Ring, who: Caller, room: nat, now: Timestamp) returns (r: Outcome, got: Entry, size: nat)
    requires ring.Valid() && !ring.lost && ring.deletedTs == 0 && ring.meta.MayRead(who) && !ring.meta.withholdStale
    requires |ring.log| > 0 && Hi(ring.log[|ring.log| - 1].ts) != 0
    ensures var e := ring.log[|ring.log| - 1];
      r == Done && size == |e.data| && got == e.(data := if |e.data| <= room then e.data else e.data[..room])
  {
    ghost var j;
    LatestAnswers(ring.log, ring.First(), |ring.log| - 1);
    assert ring.Answer(Last, 0, |ring.log| - 1);
    r, got, size, j := ring.Read(who, Last, 0, room, now);
    assert ring.Answer(Last, 0, |ring.log| - 1);
    assert r != NotFound && r != NoPerm && r != TooFast;
    LatestAnswers(ring.log, ring.First(), j);
  }

  lemma LatestAnswers(log: seq<Entry>, oldest: nat, j: int)
    ensures Answers(log, oldest, Last, 0, j) <==> j == |log| - 1 && Visible(log, oldest, j)
  {
    if |log| > 0 { assert Last.Stops(0, log[|log| - 1]); }
  }
}
