/** The object table: insertion with the reuse of kept buffers and the check for unique names,
    deletion with everything that depends on the object, and purging by age. */
module Table {
  import opened Database
  import opened Objects
  import opened ObjectHeap
  import Retention

  const OBJ_MAX: nat := 1000

  // ------------------------------------------------------------------- invariants

  /** No oid in use has still to be issued. */
  ghost predicate Issued(s: Entries, next: int) {
    forall i :: 0 <= i < |s| && s[i].Occupied() ==> s[i].oid < next
  }

  predicate SameKind(a: Info, b: Info) { a.name == b.name && a.otype == b.otype }

  /** No two live objects share name and type when either is flagged unique. */
  ghost predicate Unique(s: Entries) {
    forall i, j :: 0 <= i < j < |s| && s[i].Live() && s[j].Live() && SameKind(s[i], s[j]) ==>
      !s[i].flags.unique && !s[j].flags.unique
  }

  ghost predicate EntriesOk(s: Entries, next: int) {
    |s| == OBJ_MAX && DistinctOids(s) && Dated(s) && Issued(s, next) && Unique(s)
  }

  /** Objects to be deleted immediately do not stay after their deletion. */
  ghost predicate Settled(s: Entries) {
    forall i :: 0 <= i < |s| && s[i].Occupied() && s[i].flags.immediatelyDelete ==> s[i].deleted == 0
  }

  /** The buffers of the occupied entries are different blocks of the heap, big enough. */
  ghost predicate Owns(s: Entries, cells: seq<Blocks.Cell>) {
    && (forall i :: 0 <= i < |s| && s[i].Occupied() ==> (s[i].buffer == 0 <==> s[i].Bytes() == 0))
    && (forall i :: 0 <= i < |s| && s[i].Buffered() ==> HasBlock(cells, s[i].buffer, s[i].Bytes()))
    && (forall i, j :: 0 <= i < j < |s| && s[i].Buffered() && s[j].Buffered() ==> s[i].buffer != s[j].buffer)
  }

  function Weight(o: Info): int { if o.Buffered() then o.Bytes() else 0 }

  function Total(s: Entries): int {
    if s == [] then 0 else Total(s[..|s| - 1]) + Weight(s[|s| - 1])
  }

  lemma {:induction false} TotalUpdate(s: Entries, i: nat, o: Info)
    requires i < |s|
    ensures Total(s[i := o]) == Total(s) - Weight(s[i]) + Weight(o)
  {
    var t := s[..|s| - 1];
    if i == |s| - 1 {
      assert s[i := o][..|s| - 1] == t;
    } else {
      assert s[i := o][..|s| - 1] == t[i := o];
      TotalUpdate(t, i, o);
    }
  }

  /** Blocks that no entry refers to may come and go. */
  lemma OwnsKept(s: Entries, cells: seq<Blocks.Cell>, cells': seq<Blocks.Cell>, p: int)
    requires Owns(s, cells) && KeepsBlocks(cells, cells', p)
    requires forall i :: 0 <= i < |s| && s[i].Buffered() ==> s[i].buffer != p
    ensures Owns(s, cells')
  {}

  /** After an entry was emptied its block is not referred to any more. */
  lemma OwnsWithout(s: Entries, cells: seq<Blocks.Cell>, i: nat, o: Info)
    requires Owns(s, cells) && i < |s| && o.oid == 0
    ensures Owns(s[i := o], cells)
  {}

  /** A change that does not touch the buffer of an entry. */
  lemma OwnsSame(s: Entries, cells: seq<Blocks.Cell>, i: nat, o: Info)
    requires Owns(s, cells) && i < |s|
    requires o.oid == s[i].oid && o.buffer == s[i].buffer && o.Bytes() == s[i].Bytes()
    ensures Owns(s[i := o], cells)
  {}

  /** A block that was just handed out is no buffer of an entry. */
  lemma NotReferred(s: Entries, cells: seq<Blocks.Cell>, p: int)
    requires Owns(s, cells) && !HasBlock(cells, p, 0)
    ensures forall j :: 0 <= j < |s| && s[j].Buffered() ==> s[j].buffer != p
  {
    forall j | 0 <= j < |s| && s[j].Buffered() ensures s[j].buffer != p {
      var i :| 0 <= i < |cells| && IsBlock(cells[i], s[j].buffer, s[j].Bytes());
      assert IsBlock(cells[i], s[j].buffer, 0);
    }
  }

  /** Entry i takes over a block that no other entry has. */
  lemma OwnsNew(s: Entries, cells: seq<Blocks.Cell>, i: nat, o: Info)
    requires Owns(s, cells) && i < |s|
    requires o.buffer == 0 <==> o.Bytes() == 0
    requires o.buffer != 0 ==> HasBlock(cells, o.buffer, o.Bytes())
    requires forall j :: 0 <= j < |s| && j != i && s[j].Buffered() ==> s[j].buffer != o.buffer
    ensures Owns(s[i := o], cells)
  {}

  /** The buffers of two objects do not overlap. */
  lemma BuffersDisjoint(s: Entries, cells: seq<Blocks.Cell>, region: nat, mincell: nat, i: nat, j: nat)
    requires Owns(s, cells) && SubaCells.WellFormed(cells, region, mincell)
    requires i < |s| && j < |s| && i != j && s[i].Buffered() && s[j].Buffered()
    ensures s[i].buffer + s[i].Bytes() <= s[j].buffer || s[j].buffer + s[j].Bytes() <= s[i].buffer
    ensures s[i].buffer + s[i].Bytes() <= region
  {
    BlocksDisjoint(cells, region, mincell, s[i].buffer, s[i].Bytes(), s[j].buffer, s[j].Bytes());
  }

  /** An entry that is emptied or dies keeps the table in order. */
  lemma EntriesAfterDeath(s: Entries, next: int, i: nat, o: Info)
    requires EntriesOk(s, next) && i < |s|
    requires o.oid == 0 || (o == s[i].(deleted := o.deleted) && o.deleted != 0)
    ensures EntriesOk(s[i := o], next)
  {}

  // --------------------------------------------------------------------- requests

  datatype Request = Request(name: string, otype: nat, parent: nat, sizeMax: nat,
                             interval: real, minCycle: real, maxCycle: real, flags: Flags)

  function Positive(x: real): (r: real)
    ensures r > 0.0 && (x > 0.0 ==> r == x) && (x <= 0.0 ==> r == 0.001)
  {
    if x <= 0.0 then 0.001 else x
  }

  /** Number of history slots, none for an object without data. */
  function Slots(r: Request): nat {
    if r.sizeMax == 0 then 0
    else
      var a, b := Positive(r.minCycle), Positive(r.maxCycle);
      AtLeastTwo(Positive(r.interval), if a < b then a else b);
      Retention.HistorySize(Positive(r.interval), if a < b then a else b)
  }

  lemma AtLeastTwo(interval: real, cycle: real)
    requires interval > 0.0 && cycle > 0.0
    ensures Retention.HistorySize(interval, cycle) >= 2
  {
    Retention.CeilIsNext(interval / cycle + 1.0);
    assert interval / cycle > 0.0;
  }

  function EvenSize(size: nat): nat { if size % 2 == 1 then size + 1 else size }

  /** How long the object stays after its deletion, in nanoseconds. */
  function KeepTime(r: Request, default: real): nat {
    var i := Positive(r.interval);
    ((if i > default then i else default) * 1000000000.0).Floor
  }

  /** What is computed from a request. */
  datatype Shape = Shape(sizeMax: nat, historySize: nat, keep: nat) {
    function Bytes(): nat { sizeMax * historySize }
  }

  function ShapeOf(r: Request, default: real): Shape {
    Shape(EvenSize(r.sizeMax), Slots(r), KeepTime(r, default))
  }

  function NewInfo(r: Request, x: Shape, who: Caller, now: nat, buffer: nat): Info {
    Info(0, r.name, r.otype, r.parent, who.proc, now, 0, x.keep, x.sizeMax, x.historySize, buffer, r.flags)
  }

  /** An object without a parent becomes a child of the root object, which has oid 1. */
  function Activated(o: Info, oid: nat): Info {
    o.(oid := oid, parent := if o.parent == 0 && oid > 1 then 1 else o.parent)
  }

  /** The entry of an object of this process that was deleted long enough ago and whose buffer
      was kept, and has the right size. */
  predicate Reusable(o: Info, who: Caller, bytes: nat, now: nat) {
    && o.oid != 0 && o.deleted != 0 && o.creator == who.proc && o.flags.keepAlloc && o.Bytes() == bytes
    && o.deleted + o.keep < now
  }

  const KEEPALLOC_PERCENT := 20
  const KEEPALLOC_MAXNS := 10 * 1000000000

  /** The object was deleted long enough ago; kept buffers stay unless memory is low, and then
      for a while longer. */
  predicate Expired(o: Info, now: nat, lowMemory: bool) {
    && o.oid != 0 && o.deleted != 0 && o.deleted + o.keep < now
    && !(o.flags.keepAlloc && (!lowMemory || now - (o.deleted + o.keep) < KEEPALLOC_MAXNS))
  }

  /** Among the entries up to i exactly the expired ones were emptied. */
  ghost predicate PurgedTo(s: Entries, s': Entries, i: nat, now: nat, lowMemory: bool) {
    && |s'| == |s|
    && forall k :: 0 <= k < |s| ==>
         s'[k] == if k < i && Expired(s[k], now, lowMemory) then s[k].(oid := 0) else s[k]
  }

  ghost predicate AnyReusable(s: Entries, who: Caller, bytes: nat, now: nat) {
    exists k :: 0 <= k < |s| && Reusable(s[k], who, bytes, now)
  }

  ghost predicate FirstReusable(s: Entries, i: int, who: Caller, bytes: nat, now: nat) {
    0 <= i < |s| && Reusable(s[i], who, bytes, now) && forall k :: 0 <= k < i ==> !Reusable(s[k], who, bytes, now)
  }

  ghost predicate AnyEmpty(s: Entries) {
    exists k :: 0 <= k < |s| && s[k].oid == 0
  }

  ghost predicate FirstEmpty(s: Entries, i: int) {
    0 <= i < |s| && s[i].oid == 0 && forall k :: 0 <= k < i ==> s[k].oid != 0
  }

  /** What is chosen for an object of so many bytes, when the heap can serve them or not: the
      first entry with a kept buffer that can be used again; else new memory, and with that the
      first empty entry.  `place` is that of the new memory, -1 for none to be had, 0 if none
      was asked for. */
  ghost predicate Choice(s: Entries, served: bool, found: int, buffer: int, place: int,
                         who: Caller, bytes: nat, now: nat)
  {
    if AnyReusable(s, who, bytes, now) then
      FirstReusable(s, found, who, bytes, now) && buffer == s[found].buffer && place == 0
    else if bytes != 0 && !served then
      found == -1 && place == -1
    else
      && buffer == place >= 0 && (place == 0 <==> bytes == 0)
      && if AnyEmpty(s) then FirstEmpty(s, found) else found == -1
  }

  /** There is an entry for an object of so many bytes, and memory. */
  ghost predicate Fitting(s: Entries, served: bool, who: Caller, bytes: nat, now: nat) {
    AnyReusable(s, who, bytes, now) || (AnyEmpty(s) && (bytes == 0 || served))
  }

  /** A live object that forbids the new one. */
  predicate Clashes(o: Info, r: Request) {
    o.Live() && (o.otype == r.otype || r.otype == 0) && o.name == r.name && (o.flags.unique || r.flags.unique)
  }

  ghost predicate AnyClash(s: Entries, r: Request) {
    exists k :: 0 <= k < |s| && Clashes(s[k], r)
  }

  /** The new object took the entry that was rightly chosen; no other entry has changed.
      Without an oid the entry stays empty. */
  ghost predicate InsertedAs(s: Entries, s': Entries, r: Request, x: Shape, who: Caller, now: nat, oid: int,
                             served: bool) {
    exists i: int, buffer: nat, place: int ::
      && Choice(s, served, i, buffer, place, who, x.Bytes(), now) && 0 <= i < |s|
      && s' == s[i := if oid > 0 then Activated(NewInfo(r, x, who, now, buffer), oid)
                      else NewInfo(r, x, who, now, buffer)]
  }

  /** How an insertion ends, depending on the table, the heap and the next oid. */
  ghost function Verdict(s: Entries, served: bool, next: int, r: Request, x: Shape, who: Caller,
                         now: nat): InsertResult {
    if AnyClash(s, r) then NotUniq
    else if !Fitting(s, served, who, x.Bytes(), now) then NoRoom
    else if next <= 0 then OutOfObj
    else Inserted(next)
  }

  /** The bytes that an insertion loses: all that it allocated before it found no empty entry;
      less than none if it gives back, because of a clash, memory that it did not get. */
  ghost function Lost(s: Entries, served: bool, r: Request, who: Caller, bytes: nat, now: nat): int {
    var all: int := bytes;
    if bytes == 0 || AnyReusable(s, who, bytes, now) then 0
    else if AnyClash(s, r) then if served then 0 else -all
    else if served && !AnyEmpty(s) then all
    else 0
  }

  /** The cells of the heap after an insertion: as they were, unless the first fit was handed out
      to the new object, or lost. */
  ghost function HeapAfter(s: Entries, cells: seq<Blocks.Cell>, mincell: nat, who: Caller, bytes: nat, now: nat,
                           res: InsertResult): seq<Blocks.Cell>
  {
    if (res.Inserted? || res.NoRoom?) && !AnyReusable(s, who, bytes, now) && HasRoom(cells, bytes, mincell) then
      Taken(cells, bytes, mincell)
    else cells
  }

  /** New memory at `place`, if that is positive, is the first fit in the cells. */
  ghost predicate Got(cells: seq<Blocks.Cell>, cells': seq<Blocks.Cell>, region: nat, mincell: nat, place: int,
                      bytes: nat) {
    && SubaCells.WellFormed(cells, region, mincell)
    && if place > 0 then
         HasRoom(cells, bytes, mincell) && cells' == Taken(cells, bytes, mincell)
         && place == PlaceOf(cells, bytes, mincell)
       else cells' == cells
  }

  lemma GotIs(s: Entries, cells: seq<Blocks.Cell>, cells': seq<Blocks.Cell>, region: nat, mincell: nat,
              who: Caller, bytes: nat, now: nat, res: InsertResult, found: int, buffer: int, place: int)
    requires Got(cells, cells', region, mincell, place, bytes)
    requires Choice(s, HasRoom(cells, bytes, mincell), found, buffer, place, who, bytes, now)
    requires res.Inserted? || res.NoRoom?
    ensures cells' == HeapAfter(s, cells, mincell, who, bytes, now, res)
  {}

  /** The bytes lost when an insertion that holds new memory at `place` is refused. */
  function Stray(clash: bool, place: int, bytes: int): int {
    if clash then if place < 0 then -bytes else 0 else if place > 0 then bytes else 0
  }

  /** How an insertion ends, what it does to the entries and to the next oid, and how many
      bytes it loses. */
  ghost predicate InsertEnds(s: Entries, s': Entries, served: bool, next: int, next': int, lost: int,
                             r: Request, x: Shape, who: Caller, now: nat, res: InsertResult)
  {
    && res == Verdict(s, served, next, r, x, who, now)
    && lost == Lost(s, served, r, who, x.Bytes(), now)
    && if res.Inserted? || res.OutOfObj? then
         InsertedAs(s, s', r, x, who, now, next, served) && next' == next + 1
       else
         s' == s && next' == next
  }

  lemma RefusedEnds(s: Entries, served: bool, next: int, lost: int, r: Request, x: Shape, who: Caller, now: nat,
                    found: int, buffer: int, place: int)
    requires Choice(s, served, found, buffer, place, who, x.Bytes(), now) && (AnyClash(s, r) || found == -1)
    requires lost == Stray(AnyClash(s, r), place, x.Bytes())
    ensures InsertEnds(s, s, served, next, next, lost, r, x, who, now, if AnyClash(s, r) then NotUniq else NoRoom)
  {}

  lemma PlacedEnds(s: Entries, s': Entries, served: bool, next: int, r: Request, x: Shape, who: Caller, now: nat,
                   found: int, buffer: int, place: int)
    requires Choice(s, served, found, buffer, place, who, x.Bytes(), now) && found != -1 && !AnyClash(s, r)
    requires InsertedAs(s, s', r, x, who, now, next, served)
    ensures InsertEnds(s, s', served, next, next + 1, 0, r, x, who, now,
                       if next <= 0 then OutOfObj else Inserted(next))
  {}

  /** What became of the entry that a new object took, in terms of what was asked for: the oid is
      given out, the sizes are rounded up to an even one and to the least number of slots that span
      the interval, and a buffer that is used again was kept by this process, and its time is over. */
  lemma InsertedMeans(s: Entries, s': Entries, r: Request, default: real, who: Caller, now: nat, oid: int, served: bool)
    returns (i: nat)
    requires InsertedAs(s, s', r, ShapeOf(r, default), who, now, oid, served) && oid > 0
    ensures i < |s| == |s'| && s' == s[i := s'[i]]
    ensures var o := s'[i];
      && o.oid == oid && o.name == r.name && o.otype == r.otype && o.flags == r.flags
      && o.creator == who.proc && o.created == now && o.deleted == 0
      && o.parent == (if r.parent == 0 && oid > 1 then 1 else r.parent)
    ensures var o := s'[i];
      o.sizeMax % 2 == 0 && r.sizeMax <= o.sizeMax <= r.sizeMax + 1
    ensures var o := s'[i]; var interval := if r.interval <= 0.0 then 0.001 else r.interval;
      && interval <= o.keep as real / 1000000000.0 + 0.000000001
      && default <= o.keep as real / 1000000000.0 + 0.000000001
      && (o.keep as real / 1000000000.0 <= interval || o.keep as real / 1000000000.0 <= default)
    ensures s[i].oid != 0 ==>
      && s[i].deleted != 0 && s[i].creator == who.proc && s[i].flags.keepAlloc
      && s[i].deleted + s[i].keep < now && s'[i].buffer == s[i].buffer
      && s[i].sizeMax * s[i].historySize == s'[i].sizeMax * s'[i].historySize
  {
    var x := ShapeOf(r, default);
    var found: int, buffer: nat, place: int :|
      && Choice(s, served, found, buffer, place, who, x.Bytes(), now) && 0 <= found < |s|
      && s' == s[found := Activated(NewInfo(r, x, who, now, buffer), oid)];
    i := found;
    KeptFor(r, default);
  }

  lemma KeptFor(r: Request, default: real)
    ensures var interval := if r.interval <= 0.0 then 0.001 else r.interval;
      var keep := KeepTime(r, default) as real / 1000000000.0;
      && interval <= keep + 0.000000001 && default <= keep + 0.000000001
      && (keep <= interval || keep <= default)
  {}

  /** The history of an object with data spans its interval: with one slot less it would, at its
      shorter cycle time, and with two less it would not. */
  lemma SlotsSpanInterval(r: Request)
    ensures r.sizeMax == 0 ==> Slots(r) == 0
    ensures r.sizeMax != 0 ==>
      var interval := if r.interval <= 0.0 then 0.001 else r.interval;
      var a, b := if r.minCycle <= 0.0 then 0.001 else r.minCycle, if r.maxCycle <= 0.0 then 0.001 else r.maxCycle;
      var cycle := if a < b then a else b;
      && Slots(r) == Retention.HistorySize(interval, cycle)
      && (Slots(r) - 1) as real * cycle >= interval && (Slots(r) - 2) as real * cycle < interval
  {
    if r.sizeMax != 0 {
      var a, b := Positive(r.minCycle), Positive(r.maxCycle);
      SpansInterval(Positive(r.interval), if a < b then a else b);
    }
  }

  lemma SpansInterval(interval: real, cycle: real)
    requires interval > 0.0 && cycle > 0.0
    ensures var n := Retention.HistorySize(interval, cycle);
      n >= 2 && (n - 1) as real * cycle >= interval && (n - 2) as real * cycle < interval
  {
    AtLeastTwo(interval, cycle);
    Retention.LeastSlots(interval, cycle);
  }

  /** A live object is not purged. */
  lemma LiveStays(s: Entries, s': Entries, n: nat, now: nat, lowMemory: bool, i: nat)
    requires PurgedTo(s, s', n, now, lowMemory) && i < |s| && s[i].deleted == 0
    ensures s'[i] == s[i]
  {}

  /** An object that was deleted stays for the time it is to be kept, and a search for a time
      before its deletion finds it; after that it is purged, unless its buffer is kept. */
  lemma StaysAfterDeletion(s: Entries, s': Entries, s'': Entries, now: nat, at: nat, lowMemory: bool, i: nat)
    requires OnlyDeletes(s, s') && DeletedAt(s, s', now) && PurgedTo(s', s'', OBJ_MAX, at, lowMemory)
    requires |s| == OBJ_MAX && Gone(s, s', i) && !s[i].flags.immediatelyDelete
    ensures s'[i] == s[i].(deleted := now)
    ensures at <= now + s[i].keep ==> s''[i] == s'[i]
    ensures at > now + s[i].keep && !s[i].flags.keepAlloc ==> s''[i].oid == 0
    ensures at > now + s[i].keep && s[i].flags.keepAlloc ==>
      (s''[i].oid == 0 <==> lowMemory && at >= now + s[i].keep + 10000000000)
    ensures forall ts :: 0 < s[i].created <= ts <= now ==> Matches(Query(s[i].name, 0, 0, 0, ts, false), s'[i])
  {
    assert Killed(s[i], s'[i]);
  }

  lemma EntriesAfterInsert(s: Entries, next: int, i: nat, o: Info, r: Request)
    requires EntriesOk(s, next) && i < |s| && !s[i].Live()
    requires o.Live() && o.oid == next && o.created != 0 && o.name == r.name && o.otype == r.otype && o.flags == r.flags
    requires !AnyClash(s, r)
    ensures EntriesOk(s[i := o], next + 1)
  {
    var s' := s[i := o];
    forall a, b | 0 <= a < b < |s'| && s'[a].Live() && s'[b].Live() && SameKind(s'[a], s'[b])
      ensures !s'[a].flags.unique && !s'[b].flags.unique
    {
      assert a != i ==> !Clashes(s[a], r);
      assert b != i ==> !Clashes(s[b], r);
    }
  }

  // ------------------------------------------------------------------------ table

  datatype InsertResult = Inserted(oid: nat) | Invalid | NotUniq | OutOfObj | NoRoom

  datatype Outcome = Done | NotFound | NoPerm

  const EMPTY := Info(0, "", 0, 0, 0, 0, 0, 0, 0, 0, 0, Flags(false, false, false, false, false))

  lemma {:induction false} TotalOfEmpty(s: Entries)
    requires forall i :: 0 <= i < |s| ==> !s[i].Occupied()
    ensures Total(s) == 0
  {
    if s != [] { TotalOfEmpty(s[..|s| - 1]); }
  }

  /** A clash shows up among the first n matches of the search by type, or there is none. */
  lemma ClashIsFound(s: Entries, r: Request, n: nat)
    requires |s| == OBJ_MAX && DistinctOids(s) && Dated(s)
    requires var q := Query("", r.otype, 0, 0, 0, false);
      && |Matching(q, s)| <= n
      && forall m, k :: 0 <= m < |Matching(q, s)| && 0 <= k < OBJ_MAX && s[k].oid == Matching(q, s)[m] ==>
        !Clashes(s[k], r)
    ensures forall k :: 0 <= k < OBJ_MAX ==> !Clashes(s[k], r)
  {
    var q := Query("", r.otype, 0, 0, 0, false);
    forall k | 0 <= k < OBJ_MAX ensures !Clashes(s[k], r) {
      MatchingIff(q, s, s[k].oid);
      if Matches(q, s[k]) {
        var m :| 0 <= m < |Matching(q, s)| && Matching(q, s)[m] == s[k].oid;
      }
    }
  }

  /** The object exists and may be deleted by the caller. */
  ghost predicate Deletable(s: Entries, oid: nat, who: Caller) {
    exists i :: 0 <= i < |s| && s[i].oid == oid && s[i].Live() && s[i].Permits(who)
  }

  lemma DeletableIs(s: Entries, oid: nat, who: Caller, j: nat)
    requires DistinctOids(s) && oid != 0 && j < |s| && s[j].oid == oid
    ensures Deletable(s, oid, who) <==> s[j].Live() && s[j].Permits(who)
  {}

  lemma OnlyDeletesNothing(s: Entries)
    ensures OnlyDeletes(s, s)
  {}

  /** During a cascade not every entry is live. */
  lemma SomeEntryGone(who: Caller, s: Entries, s': Entries, top: nat)
    requires Partial(who, s, s', top)
    ensures exists i :: 0 <= i < |s'| && !s'[i].Live()
  {
    var i :| Gone(s, s', i) && s[i].oid == top;
  }

  class Table {
    const slots: array<Info>
    const store: ObjectHeap
    const defaultKeep: real
    var oidNext: int

    /** Bytes in use before the first object, and bytes that insertions allocated and lost, less
        those that they gave back without having got them. */
    ghost const reserved: int
    ghost var lost: int

    ghost predicate Valid()
      reads this, slots, store, store.heap
    {
      && EntriesOk(slots[..], oidNext)
      && Settled(slots[..])
      && Secure()
    }

    /** The part of the invariant about the heap. */
    ghost predicate Secure()
      reads this, slots, store, store.heap
    {
      && store.Valid()
      && Owns(slots[..], store.heap.cells)
      && store.used == reserved + lost + Total(slots[..])
    }

    constructor (store: ObjectHeap, defaultKeep: real)
      requires store.Valid()
      ensures Valid() && fresh(slots) && this.store == store && this.defaultKeep == defaultKeep
      ensures oidNext == 1 && lost == 0 && forall i :: 0 <= i < OBJ_MAX ==> !slots[i].Occupied()
    {
      this.store, this.defaultKeep := store, defaultKeep;
      oidNext, lost := 1, 0;
      reserved := store.used;
      slots := new Info[OBJ_MAX](_ => EMPTY);
      new;
      TotalOfEmpty(slots[..]);
    }

    /** The entry with the given oid, or -1. */
    method FindMeta(oid: nat) returns (i: int)
      requires slots.Length == OBJ_MAX
      ensures i == -1 ==> forall k :: 0 <= k < OBJ_MAX ==> slots[k].oid != oid
      ensures i != -1 ==> 0 <= i < OBJ_MAX && slots[i].oid == oid && forall k :: 0 <= k < i ==> slots[k].oid != oid
    {
      i := 0;
      while i < OBJ_MAX
        invariant 0 <= i <= OBJ_MAX
        invariant forall k :: 0 <= k < i ==> slots[k].oid != oid
      {
        if slots[i].oid == oid { return; }
        i := i + 1;
      }
      i := -1;
    }

    /** The tests of a search, in the order of the code. */
    method Hit(q: Query, i: nat) returns (hit: bool)
      requires i < slots.Length
      ensures hit <==> Matches(q, slots[i])
    {
      var o := slots[i];
      if o.oid == 0 || o.created == 0 { return false; }
      if o.otype != q.otype && q.otype != 0 { return false; }
      if o.parent != q.parent && q.parent != 0 { return false; }
      if o.creator != q.proc && q.proc != 0 { return false; }
      if o.deleted != 0 && !q.includeDeleted {
        if o.deleted < q.ts || q.ts == 0 { return false; }
      }
      if o.created > q.ts && q.ts != 0 { return false; }
      if q.name != "" && q.name != o.name { return false; }
      hit := true;
    }

    /** The oid of the nth match, or 0. */
    method SearchNth(q: Query, nth: nat) returns (oid: nat)
      requires slots.Length == OBJ_MAX && nth > 0
      ensures oid == if nth <= |Matching(q, slots[..])| then Matching(q, slots[..])[nth - 1] else 0
    {
      var i, nfound := 0, 0;
      oid := 0;
      assert slots[..][..0] == [];
      while i < OBJ_MAX
        invariant 0 <= i <= OBJ_MAX && nfound < nth
        invariant nfound == |Matching(q, slots[..][..i])|
      {
        MatchingGrows(q, slots[..], i);
        MatchingPrefix(q, slots[..], i + 1);
        var hit := Hit(q, i);
        if hit {
          oid := slots[i].oid;
          nfound := nfound + 1;
          if nfound == nth { return; }
        }
        i := i + 1;
      }
      assert slots[..][..OBJ_MAX] == slots[..];
      oid := 0;
    }

    /** All matches.  The list of the code has room for one less than all entries. */
    method SearchAll(q: Query) returns (list: seq<nat>)
      requires slots.Length == OBJ_MAX
      ensures list == Matching(q, slots[..])
    {
      var i := 0;
      list := [];
      assert slots[..][..0] == [];
      while i < OBJ_MAX
        invariant 0 <= i <= OBJ_MAX
        invariant list == Matching(q, slots[..][..i])
      {
        MatchingGrows(q, slots[..], i);
        var hit := Hit(q, i);
        if hit {
          list := list + [slots[i].oid];
        }
        i := i + 1;
      }
      assert slots[..][..OBJ_MAX] == slots[..];
    }

    method FindReusable(who: Caller, bytes: nat, now: nat) returns (i: int)
      requires slots.Length == OBJ_MAX
      ensures i == -1 || FirstReusable(slots[..], i, who, bytes, now)
      ensures i == -1 ==> !AnyReusable(slots[..], who, bytes, now)
    {
      i := 0;
      while i < OBJ_MAX
        invariant 0 <= i <= OBJ_MAX
        invariant forall k :: 0 <= k < i ==> !Reusable(slots[k], who, bytes, now)
      {
        var reuse := CanReuse(i, who, bytes, now);
        if reuse { return; }
        i := i + 1;
      }
      i := -1;
    }

    method CanReuse(i: nat, who: Caller, bytes: nat, now: nat) returns (reuse: bool)
      requires i < slots.Length
      ensures reuse <==> Reusable(slots[i], who, bytes, now)
    {
      var o := slots[i];
      if o.oid == 0 { return false; }
      if o.deleted == 0 { return false; }
      if o.creator != who.proc { return false; }
      if !o.flags.keepAlloc { return false; }
      if o.sizeMax * o.historySize != bytes { return false; }
      reuse := o.deleted + o.keep < now;
    }

    /** Whether a live object forbids the new one: the code asks for the first, the second,
        the third object of the type, until there is no more. */
    method Clash(r: Request) returns (clash: bool)
      requires EntriesOk(slots[..], oidNext)
      ensures clash <==> AnyClash(slots[..], r)
    {
      var q := Query("", r.otype, 0, 0, 0, false);
      var i := 0;
      while i < OBJ_MAX
        invariant 0 <= i <= OBJ_MAX
        invariant i <= |Matching(q, slots[..])|
        invariant forall n, k :: 0 <= n < i && 0 <= k < OBJ_MAX && slots[k].oid == Matching(q, slots[..])[n] ==>
          !Clashes(slots[k], r)
      {
        var oid := SearchNth(q, i + 1);
        if oid == 0 {
          MatchingNonzero(q, slots[..]);
          ClashIsFound(slots[..], r, i);
          return false;
        }
        var k := FindMeta(oid);
        if k != -1 {
          MatchedIs(q, slots[..], oid, k);
          if slots[k].name == r.name && (slots[k].flags.unique || r.flags.unique) {
            assert Clashes(slots[..][k], r);
            return true;
          }
        }
        i := i + 1;
      }
      MatchingIff(q, slots[..], 0);
      ClashIsFound(slots[..], r, i);
      clash := false;
    }

    method FindEmpty() returns (i: int)
      requires slots.Length == OBJ_MAX
      ensures i == -1 ==> !AnyEmpty(slots[..])
      ensures i != -1 ==> FirstEmpty(slots[..], i)
    {
      i := FindMeta(0);
    }

    // ---------------------------------------------------------------- insertion

    /** An entry and a buffer have been chosen for a new object of so many bytes. */
    ghost predicate Chosen(found: int, buffer: int, bytes: int)
      reads this, slots, store, store.heap
    {
      && slots.Length == OBJ_MAX && 0 <= found < OBJ_MAX && !slots[found].Live()
      && store.Valid() && Owns(slots[..], store.heap.cells)
      && (buffer == 0 <==> bytes == 0) && buffer >= 0
      && (buffer != 0 ==> store.Has(buffer, bytes))
      && (forall j :: 0 <= j < OBJ_MAX && j != found && slots[j].Buffered() ==> slots[j].buffer != buffer)
      && store.used == reserved + lost + Total(slots[..]) - Weight(slots[found]) + bytes
    }

    /** Besides its entries the table holds the new memory at `place`, if there is any. */
    ghost predicate Holding(place: int, bytes: int)
      reads this, slots, store, store.heap
    {
      && store.Valid() && Owns(slots[..], store.heap.cells)
      && (place > 0 ==>
            && store.Has(place, bytes)
            && forall j :: 0 <= j < |slots[..]| && slots[..][j].Buffered() ==> slots[..][j].buffer != place)
      && store.used == reserved + lost + Total(slots[..]) + if place > 0 then bytes else 0
    }

    /** A kept buffer of this process, or new memory and an empty entry. */
    method Choose(who: Caller, bytes: nat, now: nat) returns (found: int, buffer: int, place: int)
      requires Valid()
      modifies store, store.heap, store.data
      ensures Choice(slots[..], old(store.CanServe(bytes)), found, buffer, place, who, bytes, now)
      ensures Holding(place, bytes)
      ensures Got(old(store.heap.cells), store.heap.cells, store.heap.size, store.heap.mincell, place, bytes)
    {
      found := FindReusable(who, bytes, now);
      buffer, place := 0, 0;
      if found != -1 {
        buffer := slots[found].buffer;
        return;
      }
      if bytes != 0 {
        place := GetMemory(bytes);
        if place < 0 { return; }
        buffer := place;
      }
      found := FindEmpty();
    }

    method GetMemory(bytes: nat) returns (place: int)
      requires Secure() && bytes > 0
      modifies store, store.heap, store.data
      ensures if old(store.CanServe(bytes)) then place > 0 else place == -1
      ensures Holding(place, bytes)
      ensures Got(old(store.heap.cells), store.heap.cells, store.heap.size, store.heap.mincell, place, bytes)
    {
      ghost var cells0 := store.heap.cells;
      place := store.MemAlloc(bytes);
      OwnsKept(slots[..], cells0, store.heap.cells, 0);
      if place > 0 {
        NotReferred(slots[..], cells0, place);
      }
    }

    method Insert(r: Request, who: Caller, now: nat) returns (res: InsertResult)
      requires Valid() && now > 0 && oidNext < 0x7FFF_FFFF
      modifies this, slots, store, store.heap, store.data
      ensures Valid()
      ensures var x := ShapeOf(r, defaultKeep);
        if r.name == "" || 0 < r.sizeMax < BASE then
          res == Invalid && slots[..] == old(slots[..]) && oidNext == old(oidNext) && lost == old(lost)
        else
          InsertEnds(old(slots[..]), slots[..], old(store.CanServe(x.Bytes())), old(oidNext), oidNext,
                     lost - old(lost), r, x, who, now, res)
      ensures store.heap.cells ==
        HeapAfter(old(slots[..]), old(store.heap.cells), store.heap.mincell, who, ShapeOf(r, defaultKeep).Bytes(),
            now, res)
    {
      if r.sizeMax != 0 && r.sizeMax < BASE { return Invalid; }
      if r.name == "" { return Invalid; }
      res := InsertShaped(r, ShapeOf(r, defaultKeep), who, now);
    }

    method InsertShaped(r: Request, x: Shape, who: Caller, now: nat) returns (res: InsertResult)
      requires Valid() && now > 0 && oidNext < 0x7FFF_FFFF
      modifies this, slots, store, store.heap, store.data
      ensures Valid() && !res.Invalid?
      ensures InsertEnds(old(slots[..]), slots[..], old(store.CanServe(x.Bytes())), old(oidNext), oidNext,
                         lost - old(lost), r, x, who, now, res)
      ensures store.heap.cells ==
        HeapAfter(old(slots[..]), old(store.heap.cells), store.heap.mincell, who, x.Bytes(), now, res)
    {
      ghost var s, served, cells0 := slots[..], store.CanServe(x.Bytes()), store.heap.cells;
      var found, buffer, place := Choose(who, x.Bytes(), now);
      var clash := Clash(r);
      if clash || found == -1 {
        res := Refuse(clash, place, x.Bytes(), cells0);
        RefusedEnds(s, served, oidNext, lost - old(lost), r, x, who, now, found, buffer, place);
      } else {
        res := Place(r, x, who, now, found, buffer, place, served, cells0);
        PlacedEnds(s, slots[..], served, old(oidNext), r, x, who, now, found, buffer, place);
      }
      if res.Inserted? || res.NoRoom? {
        GotIs(s, cells0, store.heap.cells, store.heap.size, store.heap.mincell, who, x.Bytes(), now, res,
              found, buffer, place);
      }
    }

    /** The object is put into the chosen entry. */
    method Place(r: Request, x: Shape, who: Caller, now: nat, found: int, buffer: nat, ghost place: int,
                 ghost served: bool, ghost cells0: seq<Blocks.Cell>)
      returns (res: InsertResult)
      requires EntriesOk(slots[..], oidNext) && Settled(slots[..]) && now > 0 && oidNext < 0x7FFF_FFFF
      requires Holding(place, x.Bytes()) && found != -1 && !AnyClash(slots[..], r)
      requires Choice(slots[..], served, found, buffer, place, who, x.Bytes(), now)
      requires Got(cells0, store.heap.cells, store.heap.size, store.heap.mincell, place, x.Bytes())
      modifies slots, store, store.heap, this`oidNext
      ensures Valid() && res == if old(oidNext) <= 0 then OutOfObj else Inserted(old(oidNext))
      ensures oidNext == old(oidNext) + 1
      ensures InsertedAs(old(slots[..]), slots[..], r, x, who, now, old(oidNext), served)
      ensures store.heap.cells == if res.OutOfObj? then cells0 else old(store.heap.cells)
    {
      ChoiceIsOwned(found, buffer, place, served, who, x.Bytes(), now);
      var freeOid := oidNext;
      oidNext := oidNext + 1;
      if freeOid <= 0 {
        assert !AnyReusable(slots[..], who, x.Bytes(), now);
        DiscardNew(found, NewInfo(r, x, who, now, buffer), freeOid, cells0);
        return OutOfObj;
      }
      Activate(found, NewInfo(r, x, who, now, buffer), freeOid, r);
      res := Inserted(freeOid);
    }

    /** There is a clash or no entry: the new memory is useless now. */
    method Refuse(clash: bool, place: int, bytes: nat, ghost cells0: seq<Blocks.Cell>) returns (res: InsertResult)
      requires EntriesOk(slots[..], oidNext) && Settled(slots[..]) && Holding(place, bytes)
      requires Got(cells0, store.heap.cells, store.heap.size, store.heap.mincell, place, bytes)
      modifies store, store.heap, this`lost
      ensures Valid() && res == if clash then NotUniq else NoRoom
      ensures lost == old(lost) + Stray(clash, place, bytes)
      ensures store.heap.cells == if clash then cells0 else old(store.heap.cells)
    {
      if clash {
        // also if there was no memory to be had
        if place != 0 {
          GiveBack(place, bytes, cells0);
        }
        return NotUniq;
      }
      lost := lost + if place > 0 then bytes else 0;
      res := NoRoom;
    }

    lemma ChoiceIsOwned(found: int, buffer: nat, place: int, served: bool, who: Caller, bytes: nat, now: nat)
      requires slots.Length == OBJ_MAX && Holding(place, bytes) && found != -1
      requires Choice(slots[..], served, found, buffer, place, who, bytes, now)
      ensures Chosen(found, buffer, bytes)
    {}

    method GiveBack(place: int, bytes: nat, ghost cells0: seq<Blocks.Cell>)
      requires Holding(place, bytes) && place != 0
      requires Got(cells0, store.heap.cells, store.heap.size, store.heap.mincell, place, bytes)
      modifies store, store.heap, this`lost
      ensures Secure() && lost == old(lost) - if place < 0 then bytes else 0
      ensures store.heap.cells == cells0
    {
      if place > 0 {
        TakenThenFreed(cells0, store.heap.size, store.heap.mincell, bytes);
        FreePlace(place, bytes);
      } else {
        store.MemFree(place, bytes);
        lost := lost - bytes;
      }
    }

    method FreePlace(place: int, bytes: nat)
      requires Holding(place, bytes) && place > 0
      modifies store, store.heap
      ensures Secure() && place >= SubaCells.POFF
      ensures var k := Blocks.Find(old(store.heap.cells), place - SubaCells.POFF);
        k < |old(store.heap.cells)| && store.heap.cells == Blocks.Release(old(store.heap.cells), SubaCells.POFF, k)
    {
      ghost var cells := store.heap.cells;
      store.MemFree(place, bytes);
      OwnsKept(slots[..], cells, store.heap.cells, place);
    }

    /** The entry is written, and given its oid last. */
    method Activate(found: int, info: Info, oid: nat, ghost r: Request)
      requires Chosen(found, info.buffer, info.Bytes()) && EntriesOk(slots[..], oid) && Settled(slots[..])
      requires info.oid == 0 && info.deleted == 0 && info.created != 0 && oid > 0 && oidNext == oid + 1
      requires info.name == r.name && info.otype == r.otype && info.flags == r.flags
      requires !AnyClash(slots[..], r)
      modifies slots
      ensures Valid() && slots[..] == old(slots[..])[found := Activated(info, oid)]
    {
      ghost var s := slots[..];
      slots[found] := info;
      if slots[found].parent == 0 && oid > 1 {
        slots[found] := slots[found].(parent := 1);
      }
      slots[found] := slots[found].(oid := oid);
      ghost var o := Activated(info, oid);
      assert slots[..] == s[found := o];
      EntriesAfterInsert(s, oid, found, o, r);
      TotalUpdate(s, found, o);
      OwnsNew(s, store.heap.cells, found, o);
    }

    /** Discard an entry whose buffer is new memory, if it has one. */
    method DiscardNew(found: int, info: Info, oid: int, ghost cells0: seq<Blocks.Cell>)
      requires Chosen(found, info.buffer, info.Bytes()) && EntriesOk(slots[..], oid) && Settled(slots[..])
      requires info.oid == 0 && oidNext == oid + 1
      requires Got(cells0, store.heap.cells, store.heap.size, store.heap.mincell, info.buffer, info.Bytes())
      modifies slots, store, store.heap
      ensures Valid() && slots[..] == old(slots[..])[found := info] && store.heap.cells == cells0
    {
      if info.buffer != 0 { TakenThenFreed(cells0, store.heap.size, store.heap.mincell, info.Bytes()); }
      Discard(found, info, oid);
    }

    /** There are no more oids: the entry is left empty, and its buffer freed. */
    method Discard(found: int, info: Info, oid: int)
      requires Chosen(found, info.buffer, info.Bytes()) && EntriesOk(slots[..], oid) && Settled(slots[..])
      requires info.oid == 0 && oidNext == oid + 1
      modifies slots, store, store.heap
      ensures Valid() && slots[..] == old(slots[..])[found := info]
      ensures if info.buffer == 0 then store.heap.cells == old(store.heap.cells)
        else
          info.buffer >= SubaCells.POFF &&
          var k := Blocks.Find(old(store.heap.cells), info.buffer - SubaCells.POFF);
          k < |old(store.heap.cells)| && store.heap.cells == Blocks.Release(old(store.heap.cells), SubaCells.POFF, k)
    {
      LeaveEmpty(found, info, oid);
      FreeUnused(info.buffer, info.Bytes());
    }

    method LeaveEmpty(found: int, info: Info, oid: int)
      requires Chosen(found, info.buffer, info.Bytes()) && EntriesOk(slots[..], oid) && Settled(slots[..])
      requires info.oid == 0
      modifies slots
      ensures slots[..] == old(slots[..])[found := info]
      ensures EntriesOk(slots[..], oid) && Settled(slots[..]) && store.Valid()
      ensures Unreferred(info.buffer, info.Bytes())
    {
      ghost var s := slots[..];
      slots[found] := info;
      assert slots[..] == s[found := info];
      TotalUpdate(s, found, info);
      EntriesAfterDeath(s, oid, found, info);
      OwnsWithout(s, store.heap.cells, found, info);
    }

    /** The heap holds the buffers of the entries, and these bytes, if any, to which no entry refers. */
    ghost predicate Unreferred(buffer: int, bytes: int)
      reads this, slots, store, store.heap
    {
      && store.Valid() && Owns(slots[..], store.heap.cells)
      && (buffer == 0 <==> bytes == 0) && buffer >= 0
      && (buffer != 0 ==>
            && store.Has(buffer, bytes)
            && forall j :: 0 <= j < |slots[..]| && slots[..][j].Buffered() ==> slots[..][j].buffer != buffer)
      && store.used == reserved + lost + Total(slots[..]) + bytes
    }

    method FreeUnused(buffer: int, bytes: int)
      requires Unreferred(buffer, bytes)
      modifies store, store.heap
      ensures Secure()
      ensures if buffer == 0 then store.heap.cells == old(store.heap.cells)
        else
          buffer >= SubaCells.POFF &&
          var k := Blocks.Find(old(store.heap.cells), buffer - SubaCells.POFF);
          k < |old(store.heap.cells)| && store.heap.cells == Blocks.Release(old(store.heap.cells), SubaCells.POFF, k)
    {
      ghost var cells0 := store.heap.cells;
      if buffer != 0 {
        store.MemFree(buffer, bytes);
        OwnsKept(slots[..], cells0, store.heap.cells, buffer);
      }
    }

    // ----------------------------------------------------------------- deletion

    /** The entry is emptied and its buffer freed. */
    method PurgeSlot(i: int)
      requires EntriesOk(slots[..], oidNext) && Secure() && 0 <= i < OBJ_MAX && slots[i].Occupied()
      modifies slots, store, store.heap
      ensures EntriesOk(slots[..], oidNext) && Secure()
      ensures slots[..] == old(slots[..])[i := old(slots[i]).(oid := 0)]
      ensures store.used == old(store.used) - Weight(old(slots[i]))
    {
      ghost var s, cells0 := slots[..], store.heap.cells;
      ghost var o := s[i].(oid := 0);
      EntriesAfterDeath(s, oidNext, i, o);
      TotalUpdate(s, i, o);
      OwnsWithout(s, cells0, i, o);
      if slots[i].buffer != 0 {
        store.MemFree(slots[i].buffer, slots[i].Bytes());
        OwnsKept(s[i := o], cells0, store.heap.cells, s[i].buffer);
      }
      slots[i] := slots[i].(oid := 0);
      assert slots[..] == s[i := o];
    }

    /** The entry is marked as deleted, and emptied if it is not to stay. */
    method Mark(i: int, now: nat)
      requires Valid() && 0 <= i < OBJ_MAX && slots[i].Live() && now > 0
      modifies slots, store, store.heap
      ensures Valid() && Killed(old(slots[i]), slots[i]) && slots[i].deleted == now
      ensures slots[..] == old(slots[..])[i := slots[i]]
    {
      ghost var s := slots[..];
      ghost var o := s[i].(deleted := now);
      EntriesAfterDeath(s, oidNext, i, o);
      TotalUpdate(s, i, o);
      OwnsSame(s, store.heap.cells, i, o);
      slots[i] := slots[i].(deleted := now);
      assert slots[..] == s[i := o];
      if slots[i].flags.immediatelyDelete {
        PurgeSlot(i);
      }
    }

    /** Every entry is a live child of the object, which must then be its own parent. */
    ghost predicate AllChildren(oid: nat)
      reads slots
    {
      forall i :: 0 <= i < |slots[..]| ==> slots[..][i].Live() && slots[..][i].parent == oid
    }

    /** Delete an object and all that follows it. */
    method Delete(oid: nat, who: Caller, now: nat) returns (res: Outcome)
      requires Valid() && oid != 0 && now > 0 && !AllChildren(oid)
      modifies slots, store, store.heap
      ensures Valid()
      ensures res == Done <==> Deletable(old(slots[..]), oid, who)
      ensures res == Done ==> Cascade(who, old(slots[..]), slots[..], oid)
      ensures DeletedAt(old(slots[..]), slots[..], now)
      ensures res != Done ==> slots[..] == old(slots[..])
      decreases LiveCount(slots[..]), 1
    {
      var i := FindMeta(oid);
      if i == -1 { return NotFound; }
      if !slots[i].flags.writeAllow && slots[i].creator != who.proc && !who.admin { return NoPerm; }
      if slots[i].deleted != 0 && !slots[i].flags.immediatelyDelete { return NotFound; }
      assert Deletable(slots[..], oid, who);
      DeleteFound(i, oid, who, now);
      res := Done;
    }

    /** The object and all that follows it. */
    method DeleteFound(i: int, oid: nat, who: Caller, now: nat)
      requires Valid() && oid != 0 && now > 0 && !AllChildren(oid)
      requires 0 <= i < OBJ_MAX && slots[i].oid == oid && slots[i].Live()
      modifies slots, store, store.heap
      ensures Valid() && Cascade(who, old(slots[..]), slots[..], oid) && DeletedAt(old(slots[..]), slots[..], now)
      decreases LiveCount(slots[..]), 0
    {
      var children := SearchAll(Children(oid));
      ghost var s := slots[..];
      Mark(i, now);
      ghost var s1 := slots[..];
      MarkedIs(who, s, i, slots[i], s1, now);
      AllAmongChildren(who, s, s1, oid);
      MatchingNonzero(Children(oid), s);
      DeleteChildren(children, oid, who, now, s);
      DeletedAtTwice(s, s1, slots[..], now);
      PartialIsCascade(who, s, slots[..], oid);
    }

    lemma MarkedIs(who: Caller, s: Entries, i: nat, o: Info, s': Entries, now: nat)
      requires DistinctOids(s) && i < |s| && Killed(s[i], o) && o.deleted == now && s' == s[i := o]
      ensures Partial(who, s, s', s[i].oid) && DeletedAt(s, s', now) && LiveCount(s') < LiveCount(s)
    {
      TopIsKilled(who, s, i, o, s');
      LiveCountDrops(s, s');
    }

    method DeleteChildren(children: seq<nat>, oid: nat, who: Caller, now: nat, ghost s: Entries)
      requires Valid() && now > 0 && oid != 0 && DistinctOids(s) && children == Matching(Children(oid), s)
      requires forall n :: 0 <= n < |children| ==> children[n] != 0
      requires Partial(who, s, slots[..], oid) && LeftAmong(who, slots[..], oid, children)
      modifies slots, store, store.heap
      ensures Valid() && Partial(who, s, slots[..], oid) && LeftAmong(who, slots[..], oid, [])
      ensures DeletedAt(old(slots[..]), slots[..], now)
      decreases LiveCount(slots[..]), 3
    {
      var k := 0;
      assert children[0..] == children;
      OnlyDeletesNothing(slots[..]);
      while k < |children|
        invariant 0 <= k <= |children|
        invariant Valid() && OnlyDeletes(old(slots[..]), slots[..]) && DeletedAt(old(slots[..]), slots[..], now)
        invariant Partial(who, s, slots[..], oid) && LeftAmong(who, slots[..], oid, children[k..])
      {
        ghost var before := slots[..];
        LiveCountDrops(old(slots[..]), before);
        DeleteChild(children[k], oid, who, now, s, children[k..]);
        assert children[k..][1..] == children[k + 1..];
        OnlyDeletesTwice(old(slots[..]), before, slots[..]);
        DeletedAtTwice(old(slots[..]), before, slots[..], now);
        k := k + 1;
      }
      assert children[k..] == [];
    }

    /** The object is read again; if it exists and depends on its parent, it is deleted. */
    method DeleteChild(c: nat, oid: nat, who: Caller, now: nat, ghost s: Entries, ghost rest: seq<nat>)
      requires Valid() && c != 0 && now > 0 && oid != 0 && DistinctOids(s) && c in Matching(Children(oid), s)
      requires Partial(who, s, slots[..], oid) && rest != [] && rest[0] == c && LeftAmong(who, slots[..], oid, rest)
      modifies slots, store, store.heap
      ensures Valid() && OnlyDeletes(old(slots[..]), slots[..]) && DeletedAt(old(slots[..]), slots[..], now)
      ensures Partial(who, s, slots[..], oid) && LeftAmong(who, slots[..], oid, rest[1..])
      decreases LiveCount(slots[..]), 2
    {
      ghost var s1 := slots[..];
      OnlyDeletesNothing(s1);
      var j := FindMeta(c);
      if j != -1 && slots[j].deleted == 0 && slots[j].flags.parentDelete {
        StillChild(s, s1, oid, c, j);
        SomeEntryGone(who, s, s1, oid);
        var res := Delete(c, who, now);
        DeletableIs(s1, c, who, j);
        if res == Done {
          DeletedChild(who, s, s1, slots[..], oid, rest, j);
        } else {
          SparedChild(who, s1, oid, rest, j);
        }
      } else {
        SparedChild(who, s1, oid, rest, j);
      }
    }

    // ------------------------------------------------------------------ purging

    /** Empty the entries of objects that were deleted long enough ago. */
    method PurgeObjs(now: nat)
      requires Valid() && store.heap.size > 0
      modifies slots, store, store.heap
      ensures Valid()
      ensures PurgedTo(old(slots[..]), slots[..], OBJ_MAX, now,
        old(store.free) * 100 / store.heap.size < KEEPALLOC_PERCENT)
    {
      var lowMemory := store.free * 100 / store.heap.size < KEEPALLOC_PERCENT;
      var i := 0;
      while i < OBJ_MAX
        invariant 0 <= i <= OBJ_MAX && Valid()
        invariant PurgedTo(old(slots[..]), slots[..], i, now, lowMemory)
      {
        PurgeIfExpired(i, now, lowMemory, old(slots[..]));
        i := i + 1;
      }
    }

    method PurgeIfExpired(i: nat, now: nat, lowMemory: bool, ghost s: Entries)
      requires Valid() && i < OBJ_MAX && PurgedTo(s, slots[..], i, now, lowMemory)
      modifies slots, store, store.heap
      ensures Valid() && PurgedTo(s, slots[..], i + 1, now, lowMemory)
    {
      var o := slots[i];
      if o.oid != 0 && o.deleted != 0 {
        var end := o.deleted + o.keep;
        if end < now {
          if o.flags.keepAlloc && (!lowMemory || now - end < KEEPALLOC_MAXNS) { return; }
          PurgeSlot(i);
        }
      }
    }
  }
}
