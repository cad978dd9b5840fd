/** What a chunk of a recording says: the record of a change in the database, with the time, the
    oid and the kind before the data, or the pixels of an image. */
module Records {
  import opened Database
  import opened Riff

  const ADDOBJ: nat := 1
  const DELOBJ: nat := 2
  const UPDOBJ: nat := 3
  const UPDOBJ_NEXT: nat := 4
  const RFROBJ: nat := 5
  const CHGOBJ: nat := 6
  const ERROR: nat := 7

  /** Size of time, oid and kind. */
  const RTDB_HEAD: nat := 16
  /** Where the time of the data stands in the base data, and its end. */
  const DATA_TS: nat := 12
  const DATA_TS_END: nat := 20

  const TIMES: nat := SIZES * SIZES

  const RTDB: seq<byte> := [82, 84, 68, 66]

  predicate IsRtdb(fcc: seq<byte>)
    requires |fcc| == 4
  {
    fcc[0] == 82 && fcc[1] == 84 && fcc[2] == 68 && fcc[3] == 66
  }

  datatype Record =
    | Rtdb(ts: nat, oid: nat, kind: nat, payload: seq<byte>)
    | Image(stream: nat, pixels: seq<byte>)
    | Other
  {
    predicate Valid() {
      match this
      case Rtdb(ts, oid, kind, payload) => ts < TIMES && oid < SIZES && kind < SIZES && |payload| + RTDB_HEAD < SIZES
      case Image(stream, pixels) => stream <= 9 && 0 < |pixels| < SIZES
      case Other => false
    }

    /** Metadata of an object. */
    predicate IsInfo() { Rtdb? && kind in {ADDOBJ, RFROBJ, CHGOBJ} }

    predicate IsUpdate() { Rtdb? && kind in {UPDOBJ, UPDOBJ_NEXT} }
  }

  // ------------------------------------------------------------------ 64-bit numbers

  function Long(n: nat): (s: seq<byte>)
    requires n < TIMES
    ensures |s| == 8
  {
    Word(n % SIZES) + Word(n / SIZES)
  }

  function LongValue(s: seq<byte>): (n: nat)
    requires |s| == 8
  {
    Value(s[..4]) + SIZES * Value(s[4..])
  }

  lemma ValueFits(s: seq<byte>)
    requires |s| == 4
    ensures Value(s) < SIZES && Word(Value(s)) == s
  {}

  lemma Halves(lo: nat, hi: nat)
    requires lo < SIZES && hi < SIZES
    ensures var n := lo + SIZES * hi; n < TIMES && n % SIZES == lo && n / SIZES == hi
  {}

  lemma LongOfLongValue(s: seq<byte>)
    requires |s| == 8
    ensures LongValue(s) < TIMES && Long(LongValue(s)) == s
  {
    var lo, hi := s[..4], s[4..];
    ValueFits(lo);
    ValueFits(hi);
    Halves(Value(lo), Value(hi));
    assert s == lo + hi;
  }

  lemma LongValueOfLong(n: nat)
    requires n < TIMES
    ensures LongValue(Long(n)) == n
  {
    var lo, hi := Word(n % SIZES), Word(n / SIZES);
    assert (lo + hi)[..4] == lo && (lo + hi)[4..] == hi;
    ValueOfWord(n % SIZES);
    ValueOfWord(n / SIZES);
  }

  // ----------------------------------------------------------------- records as chunks

  function RtdbHead(ts: nat, oid: nat, kind: nat): (s: seq<byte>)
    requires ts < TIMES && oid < SIZES && kind < SIZES
    ensures |s| == RTDB_HEAD
  {
    Long(ts) + Word(oid) + Word(kind)
  }

  function ChunkOf(r: Record): (c: Chunk)
    requires r.Valid()
    ensures c.Valid()
  {
    match r
    case Rtdb(ts, oid, kind, payload) => Chunk(RTDB, RtdbHead(ts, oid, kind) + payload)
    case Image(stream, pixels) => Chunk(StreamCode(stream), pixels)
  }

  function RecordOf(c: Chunk): Record
    requires c.Valid()
  {
    if IsRtdb(c.fcc) then
      if |c.data| < RTDB_HEAD then Other
      else Rtdb(LongValue(c.data[..8]), Value(c.data[8..12]), Value(c.data[12..16]), c.data[16..])
    else if StreamOf(c.fcc) >= 0 then Image(StreamOf(c.fcc), c.data)
    else Other
  }

  /** What is read from the chunk of a record is the record. */
  lemma RecordOfChunk(r: Record)
    requires r.Valid()
    ensures RecordOf(ChunkOf(r)) == r
  {
    match r
    case Rtdb(ts, oid, kind, payload) =>
      HeadParts(Long(ts), Word(oid), Word(kind), payload);
      LongValueOfLong(ts);
      ValueOfWord(oid);
      ValueOfWord(kind);
    case Image(stream, pixels) =>
      StreamCodes(stream);
  }

  lemma HeadParts(ts: seq<byte>, oid: seq<byte>, kind: seq<byte>, payload: seq<byte>)
    requires |ts| == 8 && |oid| == 4 && |kind| == 4
    ensures var s := ts + oid + kind + payload;
      s[..8] == ts && s[8..12] == oid && s[12..16] == kind && s[16..] == payload
  {}

  ghost predicate AllRecordsValid(records: seq<Record>) {
    forall i :: 0 <= i < |records| ==> records[i].Valid()
  }

  function Chunks(records: seq<Record>): (cs: seq<Chunk>)
    requires AllRecordsValid(records)
    ensures |cs| == |records| && forall i :: 0 <= i < |cs| ==> cs[i] == ChunkOf(records[i])
  {
    if records == [] then [] else Chunks(records[..|records| - 1]) + [ChunkOf(records[|records| - 1])]
  }

  // ------------------------------------------------------------- the data of an update

  /** The oid that metadata starts with. */
  function OidOf(info: seq<byte>): nat {
    if |info| < 4 then 0 else Value(info[..4])
  }

  function CommittedTs(data: seq<byte>): nat
    requires |data| >= BASE
  {
    LongValue(data[..8])
  }

  function DataTs(data: seq<byte>): nat
    requires |data| >= BASE
  {
    LongValue(data[DATA_TS..DATA_TS_END])
  }

  /** The data as the player writes it: the time of the data is moved by what has passed since
      the commit. */
  function Shifted(data: seq<byte>, now: nat): (s: seq<byte>)
    requires |data| >= BASE
  {
    data[..DATA_TS] + Long((DataTs(data) + now - CommittedTs(data)) % TIMES) + data[DATA_TS_END..]
  }

  /** That changes the eight bytes of the time of the data and nothing else, and keeps its
      distance to the time of the commit. */
  lemma ShiftedIs(data: seq<byte>, now: nat)
    requires |data| >= BASE
    ensures var s := Shifted(data, now);
      && |s| == |data| && CommittedTs(s) == CommittedTs(data)
      && (forall i :: 0 <= i < |data| && !(DATA_TS <= i < DATA_TS_END) ==> s[i] == data[i])
      && (DataTs(s) - now) % TIMES == (DataTs(data) - CommittedTs(data)) % TIMES
  {
    var n := (DataTs(data) + now - CommittedTs(data)) % TIMES;
    Patched(data, Long(n));
    LongValueOfLong(n);
    Congruent(DataTs(data) + now - CommittedTs(data), now);
  }

  /** Data is written as it was recorded exactly at the time of its commit, modulo 2^64. */
  lemma UnshiftedIff(data: seq<byte>, now: nat)
    requires |data| >= BASE
    ensures Shifted(data, now) == data <==> (now - CommittedTs(data)) % TIMES == 0
  {
    var was, d := data[DATA_TS..DATA_TS_END], now - CommittedTs(data);
    var n := (DataTs(data) + d) % TIMES;
    LongOfLongValue(was);
    LongValueOfLong(n);
    SameRemainder(DataTs(data), d);
    Patched(data, Long(n));
    assert data == data[..DATA_TS] + was + data[DATA_TS_END..];
  }

  lemma SameRemainder(x: nat, d: int)
    requires x < TIMES
    ensures (x + d) % TIMES == x <==> d % TIMES == 0
  {}

  lemma Patched(data: seq<byte>, w: seq<byte>)
    requires |data| >= BASE && |w| == 8
    ensures var s := data[..DATA_TS] + w + data[DATA_TS_END..];
      && |s| == |data| && s[..8] == data[..8] && s[DATA_TS..DATA_TS_END] == w
      && forall i :: 0 <= i < |data| && !(DATA_TS <= i < DATA_TS_END) ==> s[i] == data[i]
  {}

  lemma Congruent(x: int, y: int)
    ensures (x % TIMES - y) % TIMES == (x - y) % TIMES
  {}

  // ----------------------------------------------------------------------- layouts

  /** The eight bytes of a time, the lowest first. */
  lemma LongBytes(s: seq<byte>)
    requires |s| == 8
    ensures LongValue(s) ==
      s[0] as nat + 0x100 * s[1] as nat + 0x1_0000 * s[2] as nat + 0x100_0000 * s[3] as nat
      + 0x1_0000_0000 * (s[4] as nat + 0x100 * s[5] as nat + 0x1_0000 * s[6] as nat + 0x100_0000 * s[7] as nat)
  {
    ValueBytes(s[..4]);
    ValueBytes(s[4..]);
  }

  /** A record of the database in the file: code, size, time, oid, kind, and the data. */
  lemma RecordLayout(ts: nat, oid: nat, kind: nat, payload: seq<byte>)
    requires Rtdb(ts, oid, kind, payload).Valid()
    ensures Encode(ChunkOf(Rtdb(ts, oid, kind, payload))) ==
      [82, 84, 68, 66] + Word(|payload| + 16) + Long(ts) + Word(oid) + Word(kind) + payload + Pad(|payload|)
  {
    assert |RtdbHead(ts, oid, kind) + payload| == |payload| + 16;
    assert Pad(|payload| + 16) == Pad(|payload|);
    SixParts([82, 84, 68, 66], Word(|payload| + 16), Long(ts), Word(oid), Word(kind), payload, Pad(|payload|));
  }

  lemma SixParts(a: seq<byte>, b: seq<byte>, c: seq<byte>, d: seq<byte>, e: seq<byte>, f: seq<byte>, g: seq<byte>)
    ensures (a + b) + (c + d + e + f) + g == a + b + c + d + e + f + g
  {}

  /** The oid comes first in the metadata of an object. */
  lemma InfoLayout(oid: nat, rest: seq<byte>)
    requires oid < SIZES
    ensures OidOf(Word(oid) + rest) == oid
  {
    assert (Word(oid) + rest)[..4] == Word(oid);
    ValueOfWord(oid);
  }

  /** The base data: time of the commit, process, time of the data, size; of these the player moves
      the third. */
  lemma BaseLayout(committed: nat, proc: nat, dataTs: nat, size: nat, rest: seq<byte>, now: nat)
    requires committed < TIMES && proc < SIZES && dataTs < TIMES && size < SIZES
    ensures var data := Long(committed) + Word(proc) + Long(dataTs) + Word(size) + rest;
      && CommittedTs(data) == committed && DataTs(data) == dataTs
      && Shifted(data, now) ==
         Long(committed) + Word(proc) + Long((dataTs + now - committed) % TIMES) + Word(size) + rest
  {
    BaseParts(Long(committed), Word(proc), Long(dataTs), Word(size), rest);
    LongValueOfLong(committed);
    LongValueOfLong(dataTs);
    Exchanged(Long(committed), Word(proc), Long(dataTs), Long((dataTs + now - committed) % TIMES), Word(size), rest);
  }

  lemma BaseParts(a: seq<byte>, b: seq<byte>, c: seq<byte>, d: seq<byte>, e: seq<byte>)
    requires |a| == 8 && |b| == 4 && |c| == 8 && |d| == 4
    ensures var s := a + b + c + d + e; s[..8] == a && s[12..20] == c
  {}

  lemma Exchanged(a: seq<byte>, b: seq<byte>, c: seq<byte>, c': seq<byte>, d: seq<byte>, e: seq<byte>)
    requires |a| == 8 && |b| == 4 && |c| == 8 && |c'| == 8 && |d| == 4
    ensures var s := a + b + c + d + e; s[..12] + c' + s[20..] == a + b + c' + d + e
  {}
}
