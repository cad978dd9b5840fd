/** The index of the image chunks that is appended to a recording. */
module AviIndex {
  import opened Riff

  const STREAMS: nat := 10
  const KEYFRAME: nat := 16

  /** The offset counts from the type code of the list that holds the chunks. */
  datatype Entry = Entry(fcc: seq<byte>, flags: nat, offset: nat, size: nat)

  /** The head of a chunk, and where it stands in the file. */
  datatype Head = Head(at: nat, fcc: seq<byte>, size: nat) {
    function End(): nat { at + 8 + size + size % 2 }
  }

  function HeadAt(file: seq<byte>, p: nat): (h: Head)
    requires p + 8 <= |file|
    ensures |h.fcc| == 4
  {
    Head(p, file[p..p + 4], Value(file[p + 4..p + 8]))
  }

  /** The heads that a walk over any file meets: each says where the next one is, up to an index
      or until there is no room for another chunk with data. */
  function Heads(file: seq<byte>, p: nat): (hs: seq<Head>)
    ensures forall i :: 0 <= i < |hs| ==> |hs[i].fcc| == 4
    decreases |file| - p
  {
    if p >= |file| - 8 then []
    else
      var h := HeadAt(file, p);
      [h] + if IsIndex(h.fcc) then [] else Heads(file, h.End())
  }

  /** Where the walk ends: the new index is written there. */
  function EndOf(hs: seq<Head>, start: nat): nat {
    if hs == [] then start else hs[|hs| - 1].End()
  }

  ghost predicate FourCodes(hs: seq<Head>) {
    forall i :: 0 <= i < |hs| ==> |hs[i].fcc| == 4
  }

  function EntryOf(h: Head, start: nat): seq<Entry>
    requires |h.fcc| == 4
  {
    if StreamOf(h.fcc) >= 0 && h.at >= start then [Entry(h.fcc, KEYFRAME, h.at - start + 4, h.size)] else []
  }

  /** The entries for these heads: one for every image chunk, in order. */
  function Entries(hs: seq<Head>, start: nat): seq<Entry>
    requires FourCodes(hs)
  {
    if hs == [] then [] else Entries(hs[..|hs| - 1], start) + EntryOf(hs[|hs| - 1], start)
  }

  function CountOf(entries: seq<Entry>, n: int): nat
    requires forall i :: 0 <= i < |entries| ==> |entries[i].fcc| == 4
  {
    if entries == [] then 0
    else CountOf(entries[..|entries| - 1], n) + if StreamOf(entries[|entries| - 1].fcc) == n then 1 else 0
  }

  function Sum(counts: seq<nat>): nat {
    if counts == [] then 0 else Sum(counts[..|counts| - 1]) + counts[|counts| - 1]
  }

  lemma {:induction false} SumUpdate(counts: seq<nat>, i: nat, v: nat)
    requires i < |counts|
    ensures Sum(counts[i := v]) == Sum(counts) - counts[i] + v
  {
    var t := counts[..|counts| - 1];
    if i == |counts| - 1 {
      assert counts[i := v][..|counts| - 1] == t;
    } else {
      assert counts[i := v][..|counts| - 1] == t[i := v];
      SumUpdate(t, i, v);
    }
  }

  // -------------------------------------------------------- what the index describes

  /** Heads stand where they say, one after the other. */
  lemma {:induction false} HeadsStand(file: seq<byte>, p: nat, i: nat)
    requires i < |Heads(file, p)|
    ensures var h := Heads(file, p)[i]; h.at >= p && h.at + 8 < |file| && h == HeadAt(file, h.at)
    decreases i
  {
    if i > 0 {
      HeadsStand(file, HeadAt(file, p).End(), i - 1);
    }
  }

  lemma {:induction false} EntryHasHead(hs: seq<Head>, start: nat, k: nat) returns (j: nat)
    requires FourCodes(hs) && k < |Entries(hs, start)|
    ensures j < |hs| && EntryOf(hs[j], start) == [Entries(hs, start)[k]]
  {
    var t := hs[..|hs| - 1];
    if k < |Entries(t, start)| {
      j := EntryHasHead(t, start, k);
    } else {
      j := |hs| - 1;
    }
  }

  lemma {:induction false} HeadHasEntry(hs: seq<Head>, start: nat, j: nat) returns (k: nat)
    requires FourCodes(hs) && j < |hs| && EntryOf(hs[j], start) != []
    ensures k < |Entries(hs, start)| && EntryOf(hs[j], start) == [Entries(hs, start)[k]]
  {
    var t := hs[..|hs| - 1];
    if j < |hs| - 1 {
      k := HeadHasEntry(t, start, j);
    } else {
      k := |Entries(t, start)|;
    }
  }

  /** Every entry of the index of any file gives code and size of an image chunk that stands at
      its offset. */
  lemma EntryDescribes(file: seq<byte>, start: nat, k: nat)
    requires k < |Entries(Heads(file, start), start)|
    ensures var e := Entries(Heads(file, start), start)[k];
      && |e.fcc| == 4 && StreamOf(e.fcc) >= 0 && e.offset >= 4 && start + e.offset + 4 < |file|
      && HeadAt(file, start + e.offset - 4) == Head(start + e.offset - 4, e.fcc, e.size)
  {
    var hs := Heads(file, start);
    var j := EntryHasHead(hs, start, k);
    HeadsStand(file, start, j);
  }

  lemma HeadsRest(file: seq<byte>, p: nat, i: nat)
    requires 0 < i < |Heads(file, p)|
    ensures var next := HeadAt(file, p).End();
      |Heads(file, p)| == |Heads(file, next)| + 1 && Heads(file, p)[i] == Heads(file, next)[i - 1]
  {}

  /** Heads come in the order of the file, each after the end of the one before. */
  lemma {:induction false} HeadsAscend(file: seq<byte>, p: nat, i: nat, j: nat)
    requires i < j < |Heads(file, p)|
    ensures Heads(file, p)[i].End() <= Heads(file, p)[j].at
    decreases i
  {
    var next := HeadAt(file, p).End();
    HeadsRest(file, p, j);
    if i == 0 {
      HeadsStand(file, next, j - 1);
    } else {
      HeadsRest(file, p, i);
      HeadsAscend(file, next, i - 1, j - 1);
    }
  }

  /** Each head is after the end of all before. */
  ghost predicate Ascending(hs: seq<Head>) {
    forall i, j :: 0 <= i < j < |hs| ==> hs[i].End() <= hs[j].at
  }

  lemma {:induction false} EntriesInOrder(hs: seq<Head>, start: nat, a: nat, b: nat)
    requires FourCodes(hs) && Ascending(hs) && a < b < |Entries(hs, start)|
    ensures Entries(hs, start)[a].offset + 8 + Entries(hs, start)[a].size <= Entries(hs, start)[b].offset
  {
    var t := hs[..|hs| - 1];
    if b < |Entries(t, start)| {
      EntriesInOrder(t, start, a, b);
    } else {
      var j := EntryHasHead(t, start, a);
    }
  }

  /** The entries are in the order of the file, and no chunk has two: each describes a chunk
      behind the end of that of the entry before. */
  lemma EntriesAscend(file: seq<byte>, start: nat, a: nat, b: nat)
    requires a < b < |Entries(Heads(file, start), start)|
    ensures var es := Entries(Heads(file, start), start); es[a].offset + 8 + es[a].size <= es[b].offset
  {
    var hs := Heads(file, start);
    forall i, j | 0 <= i < j < |hs| ensures hs[i].End() <= hs[j].at {
      HeadsAscend(file, start, i, j);
    }
    EntriesInOrder(hs, start, a, b);
  }

  function Offset(cs: seq<Chunk>): nat {
    if cs == [] then 0 else EncodedSize(cs[0]) + Offset(cs[1..])
  }

  lemma OffsetAfterFirst(cs: seq<Chunk>, j: nat)
    requires 0 < j <= |cs|
    ensures Offset(cs[..j]) == EncodedSize(cs[0]) + Offset(cs[1..][..j - 1])
  {
    assert cs[..j][1..] == cs[1..][..j - 1];
  }

  /** In a file that consists of chunks the walk meets them, all up to an index. */
  lemma {:induction false} MeetsChunk(file: seq<byte>, p: nat, cs: seq<Chunk>, j: nat)
    requires Parses(file, p, cs) && j < |cs| && AllValid(cs)
    requires forall i :: 0 <= i < j ==> !IsIndex(cs[i].fcc)
    ensures j < |Heads(file, p)|
    ensures Heads(file, p)[j] == Head(p + Offset(cs[..j]), cs[j].fcc, |cs[j].data|)
    decreases j
  {
    var h := HeadAt(file, p);
    assert h == Head(p, cs[0].fcc, |cs[0].data|);
    if j > 0 {
      assert !IsIndex(cs[0].fcc);
      MeetsChunk(file, h.End(), cs[1..], j - 1);
      OffsetAfterFirst(cs, j);
    } else {
      assert cs[..0] == [];
    }
  }

  /** Every image chunk of a recording has an entry, unless an index comes before it. */
  lemma ChunkHasEntry(file: seq<byte>, start: nat, cs: seq<Chunk>, j: nat) returns (k: nat)
    requires Parses(file, start, cs) && AllValid(cs) && j < |cs| && StreamOf(cs[j].fcc) >= 0
    requires forall i :: 0 <= i < j ==> !IsIndex(cs[i].fcc)
    ensures k < |Entries(Heads(file, start), start)|
    ensures Entries(Heads(file, start), start)[k] == Entry(cs[j].fcc, KEYFRAME, Offset(cs[..j]) + 4, |cs[j].data|)
  {
    MeetsChunk(file, start, cs, j);
    k := HeadHasEntry(Heads(file, start), start, j);
  }

  // ----------------------------------------------------------------------- the walk

  lemma {:induction false} SumOfZeros(counts: seq<nat>)
    requires forall i :: 0 <= i < |counts| ==> counts[i] == 0
    ensures Sum(counts) == 0
  {
    if counts != [] { SumOfZeros(counts[..|counts| - 1]); }
  }

  /** The counters say how many entries there are for each stream. */
  ghost predicate Tally(entries: seq<Entry>, counts: seq<nat>) {
    && |counts| == STREAMS
    && (forall i :: 0 <= i < |entries| ==> |entries[i].fcc| == 4)
    && (forall n :: 0 <= n < STREAMS ==> counts[n] == CountOf(entries, n))
    && Sum(counts) == |entries|
  }

  lemma TallyOneMore(entries: seq<Entry>, counts: seq<nat>, e: Entry)
    requires Tally(entries, counts) && |e.fcc| == 4 && StreamOf(e.fcc) >= 0
    ensures Tally(entries + [e], counts[StreamOf(e.fcc) := counts[StreamOf(e.fcc)] + 1])
  {
    SumUpdate(counts, StreamOf(e.fcc), counts[StreamOf(e.fcc)] + 1);
    assert (entries + [e])[..|entries|] == entries;
  }

  /** The walk has met the heads `done` and comes to ptr. */
  ghost predicate At(file: seq<byte>, start: nat, done: seq<Head>, ptr: nat) {
    && FourCodes(done) && start <= ptr && ptr == EndOf(done, start)
    && Heads(file, start) == done + Heads(file, ptr)
  }

  /** The walk has met the heads `done`, which are all. */
  ghost predicate Over(file: seq<byte>, start: nat, done: seq<Head>, ptr: nat) {
    FourCodes(done) && ptr == EndOf(done, start) && Heads(file, start) == done
  }

  lemma AtStep(file: seq<byte>, start: nat, done: seq<Head>, ptr: nat)
    requires At(file, start, done, ptr) && ptr < |file| - 8
    ensures var h := HeadAt(file, ptr);
      if IsIndex(h.fcc) then Over(file, start, done + [h], h.End()) else At(file, start, done + [h], h.End())
  {
    var h := HeadAt(file, ptr);
    Regrouped(done, h, if IsIndex(h.fcc) then [] else Heads(file, h.End()));
  }

  lemma EntriesGrow(done: seq<Head>, h: Head, start: nat)
    requires FourCodes(done) && |h.fcc| == 4
    ensures FourCodes(done + [h]) && Entries(done + [h], start) == Entries(done, start) + EntryOf(h, start)
  {
    assert (done + [h])[..|done|] == done;
  }

  lemma Regrouped(done: seq<Head>, h: Head, rest: seq<Head>)
    ensures done + ([h] + rest) == done + [h] + rest && done + ([h] + []) == done + [h]
  {}

  lemma AtEnd(file: seq<byte>, start: nat, done: seq<Head>, ptr: nat)
    requires At(file, start, done, ptr) && ptr >= |file| - 8
    ensures Over(file, start, done, ptr)
  {}

  /** One chunk: its entry, if it belongs to a stream, and where it ends. */
  method Visit(file: seq<byte>, start: nat, ptr: nat, entries: seq<Entry>, counts: seq<nat>)
    returns (entries': seq<Entry>, counts': seq<nat>, ptr': nat, isIndex: bool)
    requires start <= ptr && ptr + 8 <= |file| && Tally(entries, counts)
    ensures var h := HeadAt(file, ptr);
      entries' == entries + EntryOf(h, start) && ptr' == h.End() && (isIndex <==> IsIndex(h.fcc))
    ensures Tally(entries', counts')
  {
    var fcc, cb := file[ptr..ptr + 4], Value(file[ptr + 4..ptr + 8]);
    entries', counts' := entries, counts;
    if fcc[0] == ZERO && fcc[1] >= ZERO && fcc[1] <= NINE && fcc[2] == D && fcc[3] == B {
      var stream := (fcc[1] - ZERO) as nat;
      var e := Entry(fcc, KEYFRAME, ptr - start + 4, cb);
      TallyOneMore(entries, counts, e);
      entries' := entries + [e];
      counts' := counts[stream := counts[stream] + 1];
    }
    ptr' := ptr + 8 + if cb % 2 != 0 then cb + 1 else cb;
    isIndex := fcc[0] == 105 && fcc[1] == 100 && fcc[2] == 120 && fcc[3] == 49;
  }

  /** The walk over any file from `start`, where the chunks begin: the entries, the number of
      entries for each stream, and where the new index is to be written. */
  method BuildIndex(file: seq<byte>, start: nat) returns (entries: seq<Entry>, counts: seq<nat>, end: nat)
    ensures entries == Entries(Heads(file, start), start) && end == EndOf(Heads(file, start), start)
    ensures |counts| == STREAMS && Sum(counts) == |entries|
    ensures forall i :: 0 <= i < |entries| ==> |entries[i].fcc| == 4
    ensures forall n :: 0 <= n < STREAMS ==> counts[n] == CountOf(entries, n)
  {
    entries := [];
    counts := seq(STREAMS, _ => 0);
    SumOfZeros(counts);
    end := start;
    ghost var done := [];
    while end < |file| - 8
      invariant At(file, start, done, end) && entries == Entries(done, start) && Tally(entries, counts)
      decreases |file| - end
    {
      var isIndex;
      AtStep(file, start, done, end);
      ghost var h := HeadAt(file, end);
      EntriesGrow(done, h, start);
      entries, counts, end, isIndex := Visit(file, start, end, entries, counts);
      done := done + [h];
      if isIndex { return; }
    }
    AtEnd(file, start, done, end);
  }
}
