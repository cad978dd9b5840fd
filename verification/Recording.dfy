/** Recording the events of a database and playing them back: object updates, of which large
    images are split into a header and a stream chunk. */
module Recording {
  import opened Database
  import opened Riff
  import opened Records

  const KNOWN_MAX: nat := 1000
  /** Size of an image object up to its pixels. */
  const IMAGE_HEAD: nat := 48

  /** An event of the database that is recorded.  `info` is the metadata of the object; `written`
      says whether a change of it gets a chunk; `stream` is 0, or one more than the number of the
      image stream.  Missed are metadata that could not be read any more, and lost messages, for
      which the oid is 0; an object is silent that has no data when the recording begins. */
  datatype Event =
    | Inserted(ts: nat, oid: nat, info: seq<byte>, written: bool)
    | Changed(ts: nat, oid: nat, info: seq<byte>, written: bool)
    | Deleted(ts: nat, oid: nat, info: seq<byte>, written: bool)
    | Updated(ts: nat, oid: nat, info: seq<byte>, data: seq<byte>, stream: nat)
    | Unreadable(ts: nat, oid: nat, info: seq<byte>)
    | Silent(ts: nat, oid: nat, info: seq<byte>)
    | Missed(ts: nat, oid: nat)
  {
    predicate Valid() {
      && oid < SIZES && ts < TIMES
      && (!Missed? ==> oid > 0 && OidOf(info) == oid && |info| + RTDB_HEAD < SIZES)
      && (Updated? ==>
            && BASE <= |data| && |data| + RTDB_HEAD < SIZES && stream <= 10
            && (stream > 0 ==> |data| > IMAGE_HEAD))
    }

    /** An event for which the object must be known. */
    predicate NeedsInfo() { Updated? || Unreadable? || Silent? }

    /** An event after which the player has the object again. */
    predicate Restores() { (Inserted? || Changed?) && written }

    /** An event after which the player does not have the object. */
    predicate Removes() { Deleted? && written }
  }

  // -------------------------------------------------------------------- recording

  /** The chunks for an event, after metadata was written for the objects `known`. */
  function Written(known: set<nat>, e: Event): seq<Record> {
    match e
    case Inserted(ts, oid, info, written) => if written then [Rtdb(ts, oid, ADDOBJ, info)] else []
    case Changed(ts, oid, info, written) => if written then [Rtdb(ts, oid, CHGOBJ, info)] else []
    case Deleted(ts, oid, info, written) => if written then [Rtdb(ts, oid, DELOBJ, info)] else []
    case Unreadable(ts, oid, info) => [Rtdb(ts, oid, ERROR, [])] + Refresh(known, e)
    case Silent(ts, oid, info) => Refresh(known, e)
    case Missed(ts, oid) => [Rtdb(ts, oid, ERROR, [])]
    case Updated(ts, oid, info, data, stream) => Refresh(known, e) + UpdateRecords(ts, oid, data, stream)
  }

  function Refresh(known: set<nat>, e: Event): seq<Record>
    requires e.NeedsInfo()
  {
    if e.oid in known then [] else [Rtdb(e.ts, e.oid, RFROBJ, e.info)]
  }

  function UpdateRecords(ts: nat, oid: nat, data: seq<byte>, stream: nat): seq<Record> {
    if stream == 0 || |data| <= IMAGE_HEAD then [Rtdb(ts, oid, UPDOBJ, data)]
    else [Rtdb(ts, oid, UPDOBJ_NEXT, data[..IMAGE_HEAD]), Image(stream - 1, data[IMAGE_HEAD..])]
  }

  /** Deleted objects are forgotten only when events are logged. */
  function KnownAfter(known: set<nat>, e: Event, log: bool): set<nat> {
    if e.NeedsInfo() then known + {e.oid}
    else if e.Deleted? && log then known - {e.oid}
    else known
  }

  function KnownAll(known: set<nat>, events: seq<Event>, log: bool): set<nat> {
    if events == [] then known
    else KnownAfter(KnownAll(known, events[..|events| - 1], log), events[|events| - 1], log)
  }

  function AllWritten(known: set<nat>, events: seq<Event>, log: bool): seq<Record> {
    if events == [] then []
    else
      var before := events[..|events| - 1];
      AllWritten(known, before, log) + Written(KnownAll(known, before, log), events[|events| - 1])
  }

  /** An event needs a place for a new object, and there is none. */
  predicate NoPlace(known: set<nat>, e: Event) {
    e.NeedsInfo() && e.oid !in known && |known| >= KNOWN_MAX
  }

  /** There is a place for every object when it is needed. */
  predicate Fits(known: set<nat>, events: seq<Event>, log: bool) {
    events != [] ==>
      var before := events[..|events| - 1];
      Fits(known, before, log) && !NoPlace(KnownAll(known, before, log), events[|events| - 1])
  }

  lemma OneMoreEvent(known: set<nat>, before: seq<Event>, e: Event, log: bool)
    ensures var known' := KnownAll(known, before, log);
      && KnownAll(known, before + [e], log) == KnownAfter(known', e, log)
      && AllWritten(known, before + [e], log) == AllWritten(known, before, log) + Written(known', e)
      && Fits(known, before + [e], log) == (Fits(known, before, log) && !NoPlace(known', e))
  {
    assert (before + [e])[..|before|] == before;
  }

  lemma {:induction false} FitsBefore(known: set<nat>, events: seq<Event>, log: bool, i: nat)
    requires Fits(known, events, log) && i <= |events|
    ensures Fits(known, events[..i], log)
  {
    if i == |events| {
      assert events[..i] == events;
    } else {
      FitsBefore(known, events[..|events| - 1], log, i);
      assert events[..|events| - 1][..i] == events[..i];
    }
  }

  predicate IsInfoOf(r: Record, oid: nat) {
    r.IsInfo() && OidOf(r.payload) == oid
  }

  ghost predicate HasMeta(records: seq<Record>, oid: nat, n: int) {
    exists i :: 0 <= i < n && i < |records| && IsInfoOf(records[i], oid)
  }

  /** Before every update of an object there is metadata for it. */
  ghost predicate Described(records: seq<Record>) {
    forall j :: 0 <= j < |records| && records[j].IsUpdate() ==> HasMeta(records, records[j].oid, j)
  }

  ghost predicate KnownDescribed(known: set<nat>, records: seq<Record>) {
    forall oid :: oid in known ==> HasMeta(records, oid, |records|)
  }

  lemma MoreMeta(records: seq<Record>, w: seq<Record>, oid: nat, n: int)
    requires HasMeta(records, oid, n)
    ensures HasMeta(records + w, oid, n)
  {
    var i :| 0 <= i < n && i < |records| && IsInfoOf(records[i], oid);
    assert (records + w)[i] == records[i];
  }

  /** Metadata comes before an update in what is written for an event. */
  lemma WrittenShape(known: set<nat>, e: Event)
    requires e.Valid()
    ensures var w := Written(known, e);
      && (forall j :: 0 <= j < |w| && w[j].IsUpdate() ==> w[j].oid == e.oid && (e.oid in known || HasMeta(w, e.oid, j)))
      && (e.NeedsInfo() ==> e.oid in known || HasMeta(w, e.oid, |w|))
  {
    var w := Written(known, e);
    if e.NeedsInfo() && e.oid !in known {
      var at := if e.Unreadable? then 1 else 0;
      assert w[at] == Rtdb(e.ts, e.oid, RFROBJ, e.info);
      assert IsInfoOf(w[at], e.oid);
    }
  }

  lemma MetaInTail(records: seq<Record>, w: seq<Record>, oid: nat, n: int)
    requires HasMeta(w, oid, n)
    ensures HasMeta(records + w, oid, |records| + n)
  {
    var i :| 0 <= i < n && i < |w| && IsInfoOf(w[i], oid);
    assert (records + w)[|records| + i] == w[i];
  }

  lemma DescribedStep(records: seq<Record>, known: set<nat>, e: Event, log: bool)
    requires Described(records) && KnownDescribed(known, records) && e.Valid()
    ensures var more := records + Written(known, e);
      Described(more) && KnownDescribed(KnownAfter(known, e, log), more)
  {
    var w := Written(known, e);
    var more := records + w;
    WrittenShape(known, e);
    forall j | 0 <= j < |more| && more[j].IsUpdate() ensures HasMeta(more, more[j].oid, j) {
      if j < |records| {
        MoreMeta(records, w, records[j].oid, j);
      } else if e.oid in known {
        MoreMeta(records, w, e.oid, |records|);
      } else {
        MetaInTail(records, w, e.oid, j - |records|);
      }
    }
    forall oid | oid in KnownAfter(known, e, log) ensures HasMeta(more, oid, |more|) {
      if oid in known {
        MoreMeta(records, w, oid, |records|);
      } else {
        MetaInTail(records, w, oid, |w|);
      }
    }
  }

  predicate AllEventsValid(events: seq<Event>) {
    forall i :: 0 <= i < |events| ==> events[i].Valid()
  }

  /** In every recording, for any events, each update is preceded by metadata of its object. */
  lemma {:induction false} UpdatesAreDescribed(records: seq<Record>, known: set<nat>, events: seq<Event>, log: bool)
    requires Described(records) && KnownDescribed(known, records) && AllEventsValid(events)
    ensures var all := records + AllWritten(known, events, log);
      Described(all) && KnownDescribed(KnownAll(known, events, log), all)
  {
    if events == [] {
      assert records + [] == records;
    } else {
      var before, e := events[..|events| - 1], events[|events| - 1];
      UpdatesAreDescribed(records, known, before, log);
      assert events == before + [e];
      OneMoreEvent(known, before, e, log);
      DescribedStep(records + AllWritten(known, before, log), KnownAll(known, before, log), e, log);
      Regrouped(records, AllWritten(known, before, log), Written(KnownAll(known, before, log), e));
    }
  }

  lemma Regrouped(a: seq<Record>, b: seq<Record>, c: seq<Record>)
    ensures a + b + c == a + (b + c)
  {}

  // ---------------------------------------------------------------------- playing

  /** What was handed to the database, and when. */
  datatype Delivery = Delivery(oid: nat, data: seq<byte>, at: nat)

  /** The player: the objects it has inserted, the object whose image is still to come, the part
      of it that has been read, and what was delivered. */
  datatype Player = Player(mapped: set<nat>, next: nat, head: seq<byte>, out: seq<Delivery>)

  /** A record is played at time `now`. */
  function Played(p: Player, r: Record, now: nat): Player {
    match r
    case Image(_, pixels) =>
      if p.next == 0 then p
      else p.(next := 0, out := p.out + if p.next in p.mapped then [Delivery(p.next, p.head + pixels, now)] else [])
    case Rtdb(_, oid, kind, payload) =>
      if r.IsInfo() then p.(mapped := p.mapped + {OidOf(payload)})
      else if kind == DELOBJ then p.(mapped := p.mapped - {OidOf(payload)})
      else if oid !in p.mapped then p
      else if kind == UPDOBJ && |payload| >= BASE then p.(out := p.out + [Delivery(oid, Shifted(payload, now), now)])
      else if kind == UPDOBJ_NEXT then p.(next := oid, head := payload)
      else p
    case Other => p
  }

  /** Records are played one after the other; `clock` gives the times, from the ith on. */
  function AllPlayed(p: Player, records: seq<Record>, clock: nat -> nat, i: nat): Player
    decreases |records|
  {
    if records == [] then p else AllPlayed(Played(p, records[0], clock(i)), records[1..], clock, i + 1)
  }

  lemma {:induction false} PlayedInTwoParts(p: Player, a: seq<Record>, b: seq<Record>, clock: nat -> nat, i: nat)
    ensures AllPlayed(p, a + b, clock, i) == AllPlayed(AllPlayed(p, a, clock, i), b, clock, i + |a|)
    decreases |a|
  {
    if a == [] {
      assert a + b == b;
    } else {
      assert (a + b)[1..] == a[1..] + b;
      PlayedInTwoParts(Played(p, a[0], clock(i)), a[1..], b, clock, i + 1);
    }
  }

  lemma OnePlayed(p: Player, r: Record, clock: nat -> nat, i: nat)
    ensures AllPlayed(p, [r], clock, i) == Played(p, r, clock(i))
  {
    assert [r][1..] == [];
  }

  lemma TwoPlayed(p: Player, r: Record, s: Record, clock: nat -> nat, i: nat)
    ensures AllPlayed(p, [r, s], clock, i) == Played(Played(p, r, clock(i)), s, clock(i + 1))
  {
    assert [r, s] == [r] + [s];
    PlayedInTwoParts(p, [r], [s], clock, i);
    OnePlayed(p, r, clock, i);
    OnePlayed(Played(p, r, clock(i)), s, clock, i + 1);
  }

  /** The updates among the events. */
  function Updates(events: seq<Event>): seq<Event> {
    if events == [] then []
    else Updates(events[..|events| - 1]) + if events[|events| - 1].Updated? then [events[|events| - 1]] else []
  }

  /** An update arrives at its object: an image that went through a stream byte for byte, other
      data with the time of the data moved by what has passed since the commit. */
  predicate Arrives(e: Event, d: Delivery)
    requires e.Updated? && |e.data| >= BASE
  {
    d.oid == e.oid && d.data == if e.stream > 0 then e.data else Shifted(e.data, d.at)
  }

  /** Every update arrives once, and in order. */
  ghost predicate AllArrive(updates: seq<Event>, ds: seq<Delivery>) {
    && |updates| == |ds|
    && forall k :: 0 <= k < |ds| ==> updates[k].Updated? && |updates[k].data| >= BASE && Arrives(updates[k], ds[k])
  }

  /** The objects that the player has after an event, from those that it had. */
  function MappedAfter(mapped: set<nat>, known: set<nat>, e: Event): set<nat> {
    if e.Restores() || (e.NeedsInfo() && e.oid !in known) then mapped + {e.oid}
    else if e.Removes() then mapped - {e.oid}
    else mapped
  }

  function MappedAll(mapped: set<nat>, known: set<nat>, events: seq<Event>, log: bool): set<nat> {
    if events == [] then mapped
    else
      var before := events[..|events| - 1];
      MappedAfter(MappedAll(mapped, known, before, log), KnownAll(known, before, log), events[|events| - 1])
  }

  /** An update of an object that the player has when it comes to it. */
  predicate Goes(mapped: set<nat>, known: set<nat>, e: Event) {
    e.Updated? && e.oid in MappedAfter(mapped, known, e)
  }

  /** The updates of objects that the player has when it comes to them. */
  function Arriving(mapped: set<nat>, known: set<nat>, events: seq<Event>, log: bool): seq<Event> {
    if events == [] then []
    else
      var before, e := events[..|events| - 1], events[|events| - 1];
      Arriving(mapped, known, before, log) +
      if Goes(MappedAll(mapped, known, before, log), KnownAll(known, before, log), e) then [e] else []
  }

  /** Records that are played one after the other with no more than two of them. */
  lemma FewPlayed(p: Player, w: seq<Record>, clock: nat -> nat, i: nat)
    requires |w| <= 2
    ensures AllPlayed(p, w, clock, i) ==
      if |w| == 0 then p
      else if |w| == 1 then Played(p, w[0], clock(i))
      else Played(Played(p, w[0], clock(i)), w[1], clock(i + 1))
  {
    if |w| == 1 {
      assert w == [w[0]];
      OnePlayed(p, w[0], clock, i);
    } else if |w| == 2 {
      assert w == [w[0], w[1]];
      TwoPlayed(p, w[0], w[1], clock, i);
    }
  }

  /** An event that is no update delivers nothing. */
  lemma OtherEventPlayed(p: Player, known: set<nat>, e: Event, clock: nat -> nat, i: nat)
    requires p.next == 0 && e.Valid() && !e.Updated?
    ensures AllPlayed(p, Written(known, e), clock, i) == p.(mapped := MappedAfter(p.mapped, known, e))
  {
    FewPlayed(p, Written(known, e), clock, i);
  }

  lemma RefreshPlayed(p: Player, known: set<nat>, e: Event, clock: nat -> nat, i: nat)
    requires p.next == 0 && e.Valid() && e.NeedsInfo()
    ensures AllPlayed(p, Refresh(known, e), clock, i) == p.(mapped := MappedAfter(p.mapped, known, e))
  {
    FewPlayed(p, Refresh(known, e), clock, i);
  }

  lemma UpdatePlayed(p: Player, e: Event, clock: nat -> nat, i: nat) returns (ds: seq<Delivery>)
    requires e.Updated? && e.Valid() && p.next == 0
    ensures var p' := AllPlayed(p, UpdateRecords(e.ts, e.oid, e.data, e.stream), clock, i);
      p' == p.(head := p'.head, out := p.out + ds)
    ensures |ds| == (if e.oid in p.mapped then 1 else 0)
    ensures ds != [] ==> Arrives(e, ds[0]) && ds[0].at == clock(if e.stream > 0 then i + 1 else i)
  {
    FewPlayed(p, UpdateRecords(e.ts, e.oid, e.data, e.stream), clock, i);
    if e.oid !in p.mapped {
      ds := [];
    } else if e.stream == 0 {
      ds := [Delivery(e.oid, Shifted(e.data, clock(i)), clock(i))];
    } else {
      assert e.data[..IMAGE_HEAD] + e.data[IMAGE_HEAD..] == e.data;
      ds := [Delivery(e.oid, e.data, clock(i + 1))];
    }
  }

  /** What an event does to the player: an update of an object that it has is delivered. */
  lemma EventPlayed(p: Player, known: set<nat>, e: Event, clock: nat -> nat, i: nat) returns (ds: seq<Delivery>)
    requires p.next == 0 && e.Valid()
    ensures var p' := AllPlayed(p, Written(known, e), clock, i);
      p' == p.(head := p'.head, mapped := MappedAfter(p.mapped, known, e), out := p.out + ds)
    ensures |ds| == (if Goes(p.mapped, known, e) then 1 else 0) && (ds != [] ==> Arrives(e, ds[0]))
  {
    if e.Updated? {
      RefreshPlayed(p, known, e, clock, i);
      var refresh := Refresh(known, e);
      PlayedInTwoParts(p, refresh, UpdateRecords(e.ts, e.oid, e.data, e.stream), clock, i);
      ds := UpdatePlayed(AllPlayed(p, refresh, clock, i), e, clock, i + |refresh|);
    } else {
      OtherEventPlayed(p, known, e, clock, i);
      ds := [];
    }
  }

  /** Playing what is written for the events leaves the player so, with these deliveries. */
  ghost predicate Delivers(p: Player, known: set<nat>, events: seq<Event>, log: bool, clock: nat -> nat, i: nat,
                           ds: seq<Delivery>)
  {
    var p' := AllPlayed(p, AllWritten(known, events, log), clock, i);
    p' == p.(head := p'.head, mapped := MappedAll(p.mapped, known, events, log), out := p.out + ds)
  }

  lemma DeliversMore(p: Player, known: set<nat>, events: seq<Event>, log: bool, clock: nat -> nat, i: nat,
                     first: seq<Delivery>)
    returns (last: seq<Delivery>)
    requires p.next == 0 && events != [] && events[|events| - 1].Valid()
    requires Delivers(p, known, events[..|events| - 1], log, clock, i, first)
    ensures Delivers(p, known, events, log, clock, i, first + last)
    ensures var before, e := events[..|events| - 1], events[|events| - 1];
      && |last| == (if Goes(MappedAll(p.mapped, known, before, log), KnownAll(known, before, log), e) then 1 else 0)
      && (last != [] ==> Arrives(e, last[0]))
  {
    var before, e := events[..|events| - 1], events[|events| - 1];
    var w, known' := AllWritten(known, before, log), KnownAll(known, before, log);
    var p' := AllPlayed(p, w, clock, i);
    PlayedInTwoParts(p, w, Written(known', e), clock, i);
    last := EventPlayed(p', known', e, clock, i + |w|);
    assert p.out + first + last == p.out + (first + last);
  }

  lemma ArriveJoined(updates: seq<Event>, first: seq<Delivery>, e: Event, last: seq<Delivery>)
    requires AllArrive(updates, first) && |last| <= 1
    requires last != [] ==> e.Updated? && |e.data| >= BASE && Arrives(e, last[0])
    ensures AllArrive(updates + (if last == [] then [] else [e]), first + last)
  {}

  /** Record, then play: for any events whatever, the updates delivered are those of objects that
      the player has when it comes to them, each once and in the order of the events; an image
      that went through a stream byte for byte, other data with its time moved. */
  lemma {:induction false} PlayDelivers(p: Player, known: set<nat>, events: seq<Event>, log: bool,
                                        clock: nat -> nat, i: nat)
    returns (ds: seq<Delivery>)
    requires p.next == 0 && AllEventsValid(events)
    ensures Delivers(p, known, events, log, clock, i, ds)
    ensures AllArrive(Arriving(p.mapped, known, events, log), ds)
    decreases |events|
  {
    if events == [] {
      ds := [];
    } else {
      var before, e := events[..|events| - 1], events[|events| - 1];
      var first := PlayDelivers(p, known, before, log, clock, i);
      var last := DeliversMore(p, known, events, log, clock, i, first);
      ArriveJoined(Arriving(p.mapped, known, before, log), first, e, last);
      ds := first + last;
    }
  }

  // --------------------------------------------------------- which updates arrive

  /** Update k finds its object at the player. */
  predicate GoesAt(mapped: set<nat>, known: set<nat>, events: seq<Event>, log: bool, k: nat)
    requires k < |events|
  {
    Goes(MappedAll(mapped, known, events[..k], log), KnownAll(known, events[..k], log), events[k])
  }

  /** No update is missing exactly if each finds its object. */
  lemma {:induction false} NoneMissing(mapped: set<nat>, known: set<nat>, events: seq<Event>, log: bool)
    ensures |Arriving(mapped, known, events, log)| <= |Updates(events)|
    ensures |Arriving(mapped, known, events, log)| == |Updates(events)| <==>
      forall k :: 0 <= k < |events| && events[k].Updated? ==> GoesAt(mapped, known, events, log, k)
    ensures |Arriving(mapped, known, events, log)| == |Updates(events)| ==>
      Arriving(mapped, known, events, log) == Updates(events)
  {
    if events != [] {
      var n := |events| - 1;
      var before := events[..n];
      NoneMissing(mapped, known, before, log);
      forall k | 0 <= k < n ensures GoesAt(mapped, known, before, log, k) == GoesAt(mapped, known, events, log, k) {
        assert before[..k] == events[..k];
      }
    }
  }

  /** When events are logged the player has all known objects, so that all updates arrive. */
  lemma {:induction false} LoggedIsMapped(mapped: set<nat>, known: set<nat>, events: seq<Event>)
    requires known <= mapped
    ensures KnownAll(known, events, true) <= MappedAll(mapped, known, events, true)
  {
    if events != [] { LoggedIsMapped(mapped, known, events[..|events| - 1]); }
  }

  /** The object was known before event d. */
  ghost predicate KnownBefore(known: set<nat>, events: seq<Event>, d: int, oid: nat) {
    oid in known || exists j :: 0 <= j < d && j < |events| && events[j].NeedsInfo() && events[j].oid == oid
  }

  /** Event d removed the object from the player though it stays known, and it has not been
      restored before event k. */
  ghost predicate CutOff(known: set<nat>, events: seq<Event>, d: int, k: int, oid: nat) {
    && 0 <= d < k <= |events| && events[d].Removes() && events[d].oid == oid && KnownBefore(known, events, d, oid)
    && forall j :: d < j < k && events[j].Restores() ==> events[j].oid != oid
  }

  lemma {:induction false} KnownIs(known: set<nat>, events: seq<Event>, oid: nat)
    ensures oid in KnownAll(known, events, false) <==> KnownBefore(known, events, |events|, oid)
  {
    if events != [] {
      var n := |events| - 1;
      KnownIs(known, events[..n], oid);
      assert events[n].NeedsInfo() && events[n].oid == oid ==> KnownBefore(known, events, |events|, oid);
      if KnownBefore(known, events[..n], n, oid) && oid !in known {
        var j :| 0 <= j < n && events[..n][j].NeedsInfo() && events[..n][j].oid == oid;
        assert events[j].NeedsInfo();
      }
      if KnownBefore(known, events, |events|, oid) && oid !in known {
        var j :| 0 <= j <= n && events[j].NeedsInfo() && events[j].oid == oid;
        if j < n { assert events[..n][j].NeedsInfo(); }
      }
    }
  }

  lemma SameKnownBefore(known: set<nat>, events: seq<Event>, n: nat, d: nat, oid: nat)
    requires d <= n <= |events|
    ensures KnownBefore(known, events[..n], d, oid) == KnownBefore(known, events, d, oid)
  {
    forall j | 0 <= j < n ensures events[..n][j] == events[j] {}
    if j :| 0 <= j < d && events[j].NeedsInfo() && events[j].oid == oid {
      assert events[..n][j].NeedsInfo();
    }
  }

  /** One more event: what was cut off stays so unless it is restored, and a removal cuts off
      what is known. */
  lemma CutOffStep(known: set<nat>, events: seq<Event>, oid: nat)
    requires events != []
    ensures var n := |events| - 1; var e := events[n];
      (exists d :: CutOff(known, events, d, |events|, oid)) <==>
      if e.oid == oid && e.Restores() then false
      else if e.oid == oid && e.Removes() then KnownBefore(known, events, n, oid)
      else exists d :: CutOff(known, events[..n], d, n, oid)
  {
    var n := |events| - 1;
    var e := events[n];
    forall d | 0 <= d < n
      ensures CutOff(known, events, d, |events|, oid) <==>
        CutOff(known, events[..n], d, n, oid) && !(e.oid == oid && e.Restores())
    {
      SameKnownBefore(known, events, n, d, oid);
      CutOffBefore(known, events, d, oid);
    }
    assert CutOff(known, events, n, |events|, oid) <==>
      e.oid == oid && e.Removes() && KnownBefore(known, events, n, oid);
    if d :| CutOff(known, events[..n], d, n, oid) {
      assert 0 <= d < n;
      SameKnownBefore(known, events, n, d, oid);
      if e.Removes() && e.oid == oid { KnownLonger(known, events, d, n, oid); }
    }
  }

  lemma KnownLonger(known: set<nat>, events: seq<Event>, d: nat, n: nat, oid: nat)
    requires KnownBefore(known, events, d, oid) && d <= n
    ensures KnownBefore(known, events, n, oid)
  {}

  lemma CutOffBefore(known: set<nat>, events: seq<Event>, d: nat, oid: nat)
    requires events != [] && d < |events| - 1
    requires KnownBefore(known, events[..|events| - 1], d, oid) == KnownBefore(known, events, d, oid)
    ensures var n := |events| - 1;
      CutOff(known, events, d, |events|, oid) <==>
      CutOff(known, events[..n], d, n, oid) && !(events[n].oid == oid && events[n].Restores())
  {
    var n := |events| - 1;
    forall j | 0 <= j < n ensures events[..n][j] == events[j] {}
    if CutOff(known, events[..n], d, n, oid) && !(events[n].oid == oid && events[n].Restores()) {
      forall j | d < j < |events| && events[j].Restores() ensures events[j].oid != oid {
        if j < n { assert events[..n][j].Restores(); }
      }
    }
  }

  /** When events are not logged, the player is without a known object exactly if that was cut
      off. */
  lemma {:induction false} LostIff(mapped: set<nat>, known: set<nat>, events: seq<Event>, oid: nat)
    requires known <= mapped
    ensures oid in KnownAll(known, events, false) && oid !in MappedAll(mapped, known, events, false) <==>
      exists d :: CutOff(known, events, d, |events|, oid)
  {
    if events != [] {
      var n := |events| - 1;
      LostIff(mapped, known, events[..n], oid);
      KnownIs(known, events[..n], oid);
      SameKnownBefore(known, events, n, n, oid);
      CutOffStep(known, events, oid);
    }
  }

  /** Update k is dropped: its object was removed from the player though it was known, and was
      not restored since. */
  ghost predicate Dropped(known: set<nat>, events: seq<Event>, k: nat)
    requires k < |events|
  {
    events[k].Updated? && exists d :: CutOff(known, events, d, k, events[k].oid)
  }

  lemma SameCutOff(known: set<nat>, events: seq<Event>, d: int, k: nat, oid: nat)
    requires k <= |events|
    ensures CutOff(known, events[..k], d, k, oid) == CutOff(known, events, d, k, oid)
  {
    forall j | 0 <= j < k ensures events[..k][j] == events[j] {}
    if 0 <= d < k { SameKnownBefore(known, events, k, d, oid); }
    if CutOff(known, events[..k], d, k, oid) {
      forall j | d < j < k && events[j].Restores() ensures events[j].oid != oid {
        assert events[..k][j].Restores();
      }
    }
  }

  /** An update arrives exactly if events are logged or it is not dropped. */
  lemma ArrivesIff(mapped: set<nat>, known: set<nat>, events: seq<Event>, log: bool, k: nat)
    requires known <= mapped && k < |events| && events[k].Updated?
    ensures GoesAt(mapped, known, events, log, k) <==> log || !Dropped(known, events, k)
  {
    if log {
      LoggedIsMapped(mapped, known, events[..k]);
    } else {
      var oid := events[k].oid;
      LostIff(mapped, known, events[..k], oid);
      forall d ensures CutOff(known, events[..k], d, k, oid) == CutOff(known, events, d, k, oid) {
        SameCutOff(known, events, d, k, oid);
      }
    }
  }

  /** All updates arrive exactly if events are logged or none is dropped. */
  lemma AllArriveIff(mapped: set<nat>, known: set<nat>, events: seq<Event>, log: bool)
    requires known <= mapped
    ensures Arriving(mapped, known, events, log) == Updates(events) <==>
      log || forall k :: 0 <= k < |events| ==> !Dropped(known, events, k)
  {
    NoneMissing(mapped, known, events, log);
    forall k | 0 <= k < |events| && events[k].Updated?
      ensures GoesAt(mapped, known, events, log, k) <==> log || !Dropped(known, events, k)
    {
      ArrivesIff(mapped, known, events, log, k);
    }
  }

  /** No object is updated after its deletion. */
  ghost predicate Ordered(events: seq<Event>) {
    forall d, k :: 0 <= d < k < |events| && events[d].Deleted? && events[k].Updated? ==> events[d].oid != events[k].oid
  }

  /** If events are logged, or no object is updated after its deletion, every update is delivered
      once and in order. */
  lemma PlayDeliversUpdates(p: Player, known: set<nat>, events: seq<Event>, log: bool, clock: nat -> nat, i: nat)
    returns (ds: seq<Delivery>)
    requires p.next == 0 && AllEventsValid(events) && known <= p.mapped && (log || Ordered(events))
    ensures Delivers(p, known, events, log, clock, i, ds) && AllArrive(Updates(events), ds)
  {
    ds := PlayDelivers(p, known, events, log, clock, i);
    if Ordered(events) {
      forall k | 0 <= k < |events| ensures !Dropped(known, events, k) {}
    }
    AllArriveIff(p.mapped, known, events, log);
  }

  /** An update, the deletion of the object, and an update that was queued late: without a log
      the second update is lost. */
  lemma LateUpdate(u: Event, d: Event, v: Event, log: bool)
    requires u.Updated? && d.Removes() && v.Updated? && u.oid == d.oid == v.oid
    ensures Arriving({}, {}, [u, d, v], log) == if log then Updates([u, d, v]) else [u]
  {
    Next({}, {}, [], u, log);
    Next({}, {}, [u], d, log);
    Next({}, {}, [u, d], v, log);
    assert [] + [u] == [u] && [u] + [d] == [u, d] && [u, d] + [v] == [u, d, v];
  }

  lemma Next(mapped: set<nat>, known: set<nat>, before: seq<Event>, e: Event, log: bool)
    ensures var mapped', known' := MappedAll(mapped, known, before, log), KnownAll(known, before, log);
      && KnownAll(known, before + [e], log) == KnownAfter(known', e, log)
      && MappedAll(mapped, known, before + [e], log) == MappedAfter(mapped', known', e)
      && Arriving(mapped, known, before + [e], log) ==
         Arriving(mapped, known, before, log) + (if Goes(mapped', known', e) then [e] else [])
      && Updates(before + [e]) == Updates(before) + (if e.Updated? then [e] else [])
  {
    assert (before + [e])[..|before|] == before;
  }
}
