/** The loops of the recorder and the player, from events to a file and from the file to
    deliveries. */
module Recorder {
  import opened Database
  import opened Riff
  import opened Records
  import opened Recording

  // ------------------------------------------------------------------ known objects

  function IdSet(ids: seq<nat>): set<nat> {
    set o | o in ids && o != 0
  }

  ghost predicate DistinctIds(ids: seq<nat>) {
    forall i, j :: 0 <= i < j < |ids| && ids[i] != 0 ==> ids[i] != ids[j]
  }

  /** There are as many objects as places exactly if no place is free. */
  lemma {:induction false} PlacesTaken(ids: seq<nat>)
    requires DistinctIds(ids)
    ensures |IdSet(ids)| <= |ids| && (|IdSet(ids)| == |ids| <==> 0 !in ids)
  {
    if ids == [] {
      assert IdSet(ids) == {};
    } else {
      var t, x := ids[..|ids| - 1], ids[|ids| - 1];
      assert ids == t + [x];
      PlacesTaken(t);
      IdSetGrows(t, x);
      if x != 0 { assert x !in t; }
    }
  }

  lemma IdSetGrows(t: seq<nat>, x: nat)
    ensures IdSet(t + [x]) == if x == 0 then IdSet(t) else IdSet(t) + {x}
  {
    forall o ensures o in t + [x] <==> o in t || o == x {}
  }

  lemma ReplacedZero(ids: seq<nat>, i: nat, id: nat)
    requires i < |ids| && ids[i] == 0 && id != 0 && id !in ids && DistinctIds(ids)
    ensures DistinctIds(ids[i := id]) && IdSet(ids[i := id]) == IdSet(ids) + {id}
  {
    var ids' := ids[i := id];
    assert ids'[i] == id;
    forall o | o != 0 && o in ids ensures o in ids' {
      var k :| 0 <= k < |ids| && ids[k] == o;
      assert ids'[k] == o;
    }
  }

  lemma Forgotten(ids: seq<nat>, ids': seq<nat>, id: nat)
    requires DistinctIds(ids) && id != 0 && |ids'| == |ids|
    requires forall k :: 0 <= k < |ids| ==> ids'[k] == if ids[k] == id then 0 else ids[k]
    ensures DistinctIds(ids') && IdSet(ids') == IdSet(ids) - {id}
  {
    forall o | o != 0 ensures o in ids' <==> o in ids && o != id {
      if o in ids && o != id { var k :| 0 <= k < |ids| && ids[k] == o; assert ids'[k] == o; }
    }
  }

  // ----------------------------------------------------------------------- recording

  /** The records in a file, and one more. */
  lemma OneMoreRecord(records: seq<Record>, r: Record)
    requires AllRecordsValid(records) && r.Valid()
    ensures AllRecordsValid(records + [r])
    ensures EncodeAll(Chunks(records + [r])) == EncodeAll(Chunks(records)) + Encode(ChunkOf(r))
  {
    assert (records + [r])[..|records|] == records;
    EncodeOneMore(Chunks(records), ChunkOf(r));
  }

  lemma RtdbBytes(before: seq<byte>, ts: nat, oid: nat, kind: nat, payload: seq<byte>)
    requires Rtdb(ts, oid, kind, payload).Valid()
    ensures var head := Header(RTDB, |payload| + RTDB_HEAD) + RtdbHead(ts, oid, kind);
      && before + Encode(ChunkOf(Rtdb(ts, oid, kind, payload))) == before + head + payload + Pad(|payload|)
      && (payload == [] ==> before + head + payload == before + head)
      && (|payload| % 2 == 0 ==> before + head + payload + Pad(|payload|) == before + head + payload)
  {
    var n, h, x := |payload| + RTDB_HEAD, Header(RTDB, |payload| + RTDB_HEAD), RtdbHead(ts, oid, kind);
    assert |x + payload| == n;
    Assoc(before, h, x, payload, Pad(n));
  }

  lemma Assoc(a: seq<byte>, h: seq<byte>, x: seq<byte>, y: seq<byte>, z: seq<byte>)
    ensures a + (h + (x + y) + z) == a + (h + x) + y + z
  {}

  class Recorder {
    /** The objects whose metadata has been written; 0 is a free place. */
    const ids: array<nat>
    const file: Writer
    /** What the file says. */
    ghost var out: seq<Record>

    ghost predicate Valid()
      reads this, ids, file
    {
      ids.Length == KNOWN_MAX && DistinctIds(ids[..]) && Filed()
    }

    ghost predicate Filed()
      reads this, file
    {
      AllRecordsValid(out) && file.bytes == EncodeAll(Chunks(out))
    }

    ghost function Known(): set<nat>
      reads ids
    {
      IdSet(ids[..])
    }

    constructor ()
      ensures fresh(ids) && fresh(file) && Valid() && Known() == {} && out == []
    {
      ids := new nat[KNOWN_MAX](_ => 0);
      file := new Writer();
      out := [];
    }

    method Forget(id: nat)
      requires id > 0 && DistinctIds(ids[..])
      modifies ids
      ensures Known() == old(Known()) - {id} && DistinctIds(ids[..])
    {
      var i := 0;
      while i < ids.Length
        invariant 0 <= i <= ids.Length
        invariant forall k :: 0 <= k < i ==> ids[k] == if old(ids[k]) == id then 0 else old(ids[k])
        invariant forall k :: i <= k < ids.Length ==> ids[k] == old(ids[k])
      {
        if ids[i] == id {
          ids[i] := 0;
        }
        i := i + 1;
      }
      Forgotten(old(ids[..]), ids[..], id);
    }

    /** Whether the object is known; if not, it is from now on.  -1 if there is no place left. */
    method KnownObj(id: nat) returns (r: int)
      requires id > 0 && ids.Length == KNOWN_MAX && DistinctIds(ids[..])
      modifies ids
      ensures DistinctIds(ids[..])
      ensures r == if id in old(Known()) then 1 else if |old(Known())| < KNOWN_MAX then 0 else -1
      ensures Known() == if r == 0 then old(Known()) + {id} else old(Known())
    {
      PlacesTaken(ids[..]);
      var i := 0;
      while i < ids.Length
        invariant 0 <= i <= ids.Length && id !in ids[..i]
      {
        if ids[i] == id { return 1; }
        i := i + 1;
      }
      assert ids[..ids.Length] == ids[..];
      i := 0;
      while i < ids.Length
        invariant 0 <= i <= ids.Length && 0 !in ids[..i]
      {
        if ids[i] == 0 {
          ReplacedZero(ids[..], i, id);
          ghost var before := ids[..];
          ids[i] := id;
          assert ids[..] == before[i := id];
          return 0;
        }
        i := i + 1;
      }
      assert ids[..ids.Length] == ids[..];
      r := -1;
    }

    /** aviraw_fput_rtdb: the head, the data if there are any, and the padding. */
    method PutRtdb(ts: nat, oid: nat, kind: nat, payload: seq<byte>)
      requires Filed() && Rtdb(ts, oid, kind, payload).Valid()
      modifies this`out, file
      ensures Filed() && out == old(out) + [Rtdb(ts, oid, kind, payload)]
    {
      ghost var before, r := file.bytes, Rtdb(ts, oid, kind, payload);
      OneMoreRecord(out, r);
      RtdbBytes(before, ts, oid, kind, payload);
      var items := file.Fwrite(Header(RTDB, |payload| + RTDB_HEAD) + RtdbHead(ts, oid, kind));
      if |payload| > 0 {
        items := file.Fwrite(payload);
      }
      if |payload| % 2 == 1 {
        items := file.Fwrite([0]);
      }
      out := out + [r];
    }

    method PutStream(stream: nat, pixels: seq<byte>)
      requires Filed() && Image(stream, pixels).Valid()
      modifies this`out, file
      ensures Filed() && out == old(out) + [Image(stream, pixels)]
    {
      OneMoreRecord(out, Image(stream, pixels));
      var ret := file.FputStream(stream, pixels);
      out := out + [Image(stream, pixels)];
    }

    /** Write the chunks for an event; false if the recorder gives up, which it does if and only
        if it needs a place for a new object and all are taken. */
    method RecordEvent(e: Event, log: bool) returns (ok: bool)
      requires Valid() && e.Valid()
      modifies this, ids, file
      ensures Valid()
      ensures ok <==> !NoPlace(old(Known()), e)
      ensures ok ==> out == old(out) + Written(old(Known()), e) && Known() == KnownAfter(old(Known()), e, log)
    {
      if e.NeedsInfo() {
        ok := RecordData(e);
        return;
      }
      ok := true;
      if e.Missed? {
        PutRtdb(e.ts, e.oid, ERROR, []);
        return;
      }
      if e.Deleted? && log { Forget(e.oid); }
      if e.written {
        PutRtdb(e.ts, e.oid, if e.Inserted? then ADDOBJ else if e.Changed? then CHGOBJ else DELOBJ, e.info);
      }
    }

    method RecordData(e: Event) returns (ok: bool)
      requires Valid() && e.Valid() && e.NeedsInfo()
      modifies this, ids, file
      ensures Valid()
      ensures ok <==> !NoPlace(old(Known()), e)
      ensures ok ==> out == old(out) + Written(old(Known()), e) && Known() == old(Known()) + {e.oid}
    {
      WrittenIs(out, Known(), e);
      if e.Unreadable? { PutRtdb(e.ts, e.oid, ERROR, []); }
      ok := Describe(e);
      if ok && e.Updated? {
        PutUpdate(e.ts, e.oid, e.data, e.stream);
      }
    }

    /** Metadata of the object, if none has been written. */
    method Describe(e: Event) returns (ok: bool)
      requires Valid() && e.Valid() && e.NeedsInfo()
      modifies this, ids, file
      ensures Valid()
      ensures ok <==> !NoPlace(old(Known()), e)
      ensures ok ==> out == old(out) + Refresh(old(Known()), e) && Known() == old(Known()) + {e.oid}
    {
      var r := KnownObj(e.oid);
      if r == 0 { PutRtdb(e.ts, e.oid, RFROBJ, e.info); }
      ok := r != -1;
    }

    method PutUpdate(ts: nat, oid: nat, data: seq<byte>, stream: nat)
      requires Filed() && Rtdb(ts, oid, UPDOBJ, data).Valid()
      requires stream <= 10 && (stream > 0 ==> |data| > IMAGE_HEAD)
      modifies this`out, file
      ensures Filed() && out == old(out) + UpdateRecords(ts, oid, data, stream)
    {
      if stream == 0 {
        PutRtdb(ts, oid, UPDOBJ, data);
      } else {
        PutImage(ts, oid, data[..IMAGE_HEAD], stream - 1, data[IMAGE_HEAD..]);
      }
    }

    method PutImage(ts: nat, oid: nat, head: seq<byte>, stream: nat, pixels: seq<byte>)
      requires Filed() && Rtdb(ts, oid, UPDOBJ_NEXT, head).Valid() && Image(stream, pixels).Valid()
      modifies this`out, file
      ensures Filed() && out == old(out) + [Rtdb(ts, oid, UPDOBJ_NEXT, head), Image(stream, pixels)]
    {
      TwoMore(out, Rtdb(ts, oid, UPDOBJ_NEXT, head), Image(stream, pixels));
      PutRtdb(ts, oid, UPDOBJ_NEXT, head);
      PutStream(stream, pixels);
    }

    /** The events `done` have been recorded after what was known and written before. */
    ghost predicate Recorded(known: set<nat>, before: seq<Record>, done: seq<Event>, log: bool)
      reads this, ids, file
    {
      && Valid() && Fits(known, done, log)
      && out == before + AllWritten(known, done, log) && Known() == KnownAll(known, done, log)
    }

    method RecordNext(e: Event, log: bool, ghost known: set<nat>, ghost before: seq<Record>, ghost done: seq<Event>)
      returns (ok: bool)
      requires Recorded(known, before, done, log) && e.Valid()
      modifies this, ids, file
      ensures Valid() && (ok <==> Fits(known, done + [e], log))
      ensures ok ==> Recorded(known, before, done + [e], log)
    {
      WrittenNext(before, known, done, e, log);
      ok := RecordEvent(e, log);
    }

    /** All events, as long as there is a place for every new object. */
    method RecordAll(events: seq<Event>, log: bool) returns (ok: bool)
      requires Valid() && AllEventsValid(events)
      modifies this, ids, file
      ensures Valid()
      ensures ok <==> Fits(old(Known()), events, log)
      ensures ok ==> out == old(out) + AllWritten(old(Known()), events, log)
      ensures ok ==> Known() == KnownAll(old(Known()), events, log)
    {
      ghost var before, known := out, Known();
      var i := 0;
      while i < |events|
        invariant 0 <= i <= |events| && Recorded(known, before, events[..i], log)
      {
        PrefixGrows(events, i);
        ok := RecordNext(events[i], log, known, before, events[..i]);
        if !ok {
          NeverFits(known, events, log, i + 1);
          return;
        }
        i := i + 1;
      }
      assert events[..i] == events;
      ok := true;
    }
  }

  lemma PrefixGrows(events: seq<Event>, i: nat)
    requires i < |events|
    ensures events[..i + 1] == events[..i] + [events[i]]
  {}

  lemma NeverFits(known: set<nat>, events: seq<Event>, log: bool, i: nat)
    requires i <= |events| && !Fits(known, events[..i], log)
    ensures !Fits(known, events, log)
  {
    if Fits(known, events, log) { FitsBefore(known, events, log, i); }
  }

  lemma TwoMore(out: seq<Record>, a: Record, b: Record)
    ensures out + [a] + [b] == out + [a, b]
  {}

  lemma WrittenIs(out: seq<Record>, known: set<nat>, e: Event)
    requires e.NeedsInfo()
    ensures out + Written(known, e) ==
      if e.Unreadable? then out + [Rtdb(e.ts, e.oid, ERROR, [])] + Refresh(known, e)
      else if e.Silent? then out + Refresh(known, e)
      else out + Refresh(known, e) + UpdateRecords(e.ts, e.oid, e.data, e.stream)
  {}

  /** What an event adds to what the events before it have made. */
  lemma WrittenNext(out: seq<Record>, known: set<nat>, before: seq<Event>, e: Event, log: bool)
    ensures var known' := KnownAll(known, before, log);
      && out + AllWritten(known, before + [e], log) == out + AllWritten(known, before, log) + Written(known', e)
      && KnownAll(known, before + [e], log) == KnownAfter(known', e, log)
      && Fits(known, before + [e], log) == (Fits(known, before, log) && !NoPlace(known', e))
  {
    OneMoreEvent(known, before, e, log);
    Regrouped(out, AllWritten(known, before, log), Written(KnownAll(known, before, log), e));
  }

  // ------------------------------------------------------------------------- playing

  /** What the chunks of a file say. */
  function RecordsOf(cs: seq<Chunk>): (records: seq<Record>)
    requires AllValid(cs)
    ensures |records| == |cs| && forall i :: 0 <= i < |cs| ==> records[i] == RecordOf(cs[i])
  {
    if cs == [] then [] else [RecordOf(cs[0])] + RecordsOf(cs[1..])
  }

  lemma RecordsOfChunks(records: seq<Record>)
    requires AllRecordsValid(records)
    ensures RecordsOf(Chunks(records)) == records
  {
    forall i | 0 <= i < |records| ensures RecordsOf(Chunks(records))[i] == records[i] {
      RecordOfChunk(records[i]);
    }
  }

  class Playback {
    var mapped: set<nat>
    var next: nat
    var head: seq<byte>
    var out: seq<Delivery>

    ghost function State(): Player
      reads this
    {
      Player(mapped, next, head, out)
    }

    constructor ()
      ensures State() == Player({}, 0, [], [])
    {
      mapped, next, head, out := {}, 0, [], [];
    }

    method PlayRecord(r: Record, now: nat)
      modifies this
      ensures State() == Played(old(State()), r, now)
    {
      if r.Rtdb? {
        if r.IsInfo() {
          mapped := mapped + {OidOf(r.payload)};
        } else if r.kind == DELOBJ {
          mapped := mapped - {OidOf(r.payload)};
        } else if r.oid in mapped {
          if r.kind == UPDOBJ && |r.payload| >= BASE {
            out := out + [Delivery(r.oid, Shifted(r.payload, now), now)];
          } else if r.kind == UPDOBJ_NEXT {
            next, head := r.oid, r.payload;
          }
        }
      } else if r.Image? {
        if next == 0 { return; }
        if next in mapped {
          out := out + [Delivery(next, head + r.pixels, now)];
        }
        next := 0;
      }
    }

    /** Play a file to its end: chunk i is played at time clock(i). */
    method PlayFile(bytes: seq<byte>, clock: nat -> nat, ghost cs: seq<Chunk>)
      requires Parses(bytes, 0, cs) && AllValid(cs)
      modifies this
      ensures State() == AllPlayed(old(State()), RecordsOf(cs), clock, 0)
    {
      var reader := new Reader(bytes);
      ghost var all := AllPlayed(State(), RecordsOf(cs), clock, 0);
      ghost var rest := cs;
      var i := 0;
      while true
        invariant Parses(bytes, reader.pos, rest) && AllValid(rest)
        invariant all == AllPlayed(State(), RecordsOf(rest), clock, i)
        decreases |rest|
      {
        // the buffer grows to the size of any chunk
        var more, c := reader.ReadChunk(SIZES, rest);
        if !more { break; }
        NextRecord(State(), rest, clock, i);
        PlayRecord(RecordOf(c), clock(i));
        i := i + 1;
        rest := rest[1..];
      }
    }
  }

  lemma NextRecord(p: Player, cs: seq<Chunk>, clock: nat -> nat, i: nat)
    requires AllValid(cs) && cs != []
    ensures AllPlayed(p, RecordsOf(cs), clock, i)
         == AllPlayed(Played(p, RecordOf(cs[0]), clock(i)), RecordsOf(cs[1..]), clock, i + 1)
  {
    assert RecordsOf(cs)[1..] == RecordsOf(cs[1..]);
  }

  /** A file that holds the records plays as the records. */
  lemma FilePlays(bytes: seq<byte>, records: seq<Record>)
    requires AllRecordsValid(records) && bytes == EncodeAll(Chunks(records))
    ensures Parses(bytes, 0, Chunks(records)) && RecordsOf(Chunks(records)) == records
  {
    assert bytes[0..] == bytes;
    EncodedParses(bytes, 0, Chunks(records));
    RecordsOfChunks(records);
  }

  /** Play the file that was recorded for the events. */
  method Replay(bytes: seq<byte>, clock: nat -> nat, ghost records: seq<Record>, ghost events: seq<Event>,
                ghost log: bool)
    returns (delivered: seq<Delivery>)
    requires AllRecordsValid(records) && bytes == EncodeAll(Chunks(records))
    requires AllEventsValid(events) && records == AllWritten({}, events, log)
    ensures AllArrive(Arriving({}, {}, events, log), delivered)
  {
    FilePlays(bytes, records);
    var playback := new Playback();
    playback.PlayFile(bytes, clock, Chunks(records));
    delivered := playback.out;
    WhatArrives(Player({}, 0, [], []), {}, records, events, log, clock);
  }

  lemma WhatArrives(p: Player, known: set<nat>, records: seq<Record>, events: seq<Event>, log: bool, clock: nat -> nat)
    requires p.next == 0 && p.out == [] && AllEventsValid(events) && records == AllWritten(known, events, log)
    ensures AllArrive(Arriving(p.mapped, known, events, log), AllPlayed(p, records, clock, 0).out)
  {
    var ds := PlayDelivers(p, known, events, log, clock, 0);
    assert [] + ds == ds;
  }

  /** Record to a file, then play the file: the updates of objects that the player has arrive,
      each once and in order.  They are all updates if and only if events are logged or none is
      dropped.  The events can be recorded if and only if there is always a place for a new
      object. */
  method RecordThenPlay(events: seq<Event>, log: bool, clock: nat -> nat) returns (ok: bool, delivered: seq<Delivery>)
    requires AllEventsValid(events)
    ensures ok <==> Fits({}, events, log)
    ensures ok ==> AllArrive(Arriving({}, {}, events, log), delivered)
    ensures ok ==>
      (AllArrive(Updates(events), delivered) <==>
       log || forall k :: 0 <= k < |events| ==> !Dropped({}, events, k))
  {
    var recorder := new Recorder();
    delivered := [];
    ok := recorder.RecordAll(events, log);
    if ok {
      delivered := Replay(recorder.file.bytes, clock, recorder.out, events, log);
      NoneMissing({}, {}, events, log);
      AllArriveIff({}, {}, events, log);
    }
  }

  /** An update, a deletion and a late update are recorded without a log and played: only the
      first update arrives. */
  method LateUpdateIsLost(u: Event, d: Event, v: Event, clock: nat -> nat) returns (delivered: seq<Delivery>)
    requires u.Updated? && d.Removes() && v.Updated? && u.oid == d.oid == v.oid
    requires u.Valid() && d.Valid() && v.Valid()
    ensures |delivered| == 1 && delivered[0].oid == u.oid
    ensures delivered[0].data == if u.stream > 0 then u.data else Shifted(u.data, delivered[0].at)
  {
    var ok;
    PlaceForOne(u, d, v);
    LateUpdate(u, d, v, false);
    ok, delivered := RecordThenPlay([u, d, v], false, clock);
  }

  lemma PlaceForOne(u: Event, d: Event, v: Event)
    requires u.Updated? && d.Deleted? && v.Updated? && u.oid == v.oid
    ensures Fits({}, [u, d, v], false)
  {
    OneMoreEvent({}, [], u, false);
    OneMoreEvent({}, [u], d, false);
    OneMoreEvent({}, [u, d], v, false);
    assert [] + [u] == [u] && [u] + [d] == [u, d] && [u, d] + [v] == [u, d, v];
  }
}
