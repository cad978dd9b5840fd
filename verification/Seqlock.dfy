/**
 One object's history ring, written by one process and read by any number of
 processes without a lock.  Every access to shared memory is a step of its own:
 the two halves of the commit timestamp and every payload word are separate
 locations, so that torn copies can be expressed.

 An execution is a list of actions, in the order in which memory sees them
 (sequential consistency).  `Exec` runs it and yields `None` when an action was
 not possible at its turn.
 */
module Seqlock {
  import opened Database
  import opened Timestamps

  /** `slots` is history_size, `width` the number of payload words of a slot. */
  datatype Config = Config(slots: nat, width: nat) {
    predicate Valid() { slots > 0 }
  }

  /** `version` is auxiliary: the index in the commit log of the commit that
      last set the low half of this slot's timestamp, -1 for none. No step of a
      writer or reader depends on it. */
  datatype Slot = Slot(hi: nat, lo: nat, words: seq<int>, version: int)

  datatype Commit = Commit(ts: Timestamp, words: seq<int>)

  datatype WriterPc =
    | Idle
    | HiCleared
    | Filling
    | LowSet(ts: Timestamp)
    | HighSet

  /** What a read looks for.
      - Latest(want): the newest commit with time <= want, or just the newest
        when want is 0; the backward walk is the one the code performs.
      - Free: the reader chooses any slot at any time before it copies. This
        covers the other query modes and the slot cursor, which sample a slot,
        look at further slots, and finally copy from a slot sampled before. */
  datatype Goal = Latest(want: Timestamp) | Free

  datatype ReaderPc =
    | Guard
    | SampleHi
    | SampleLo
    | Decide
    | Copying
    | FinalHi
    | Accepted
    | HistWrap
    | NotFound

  /** `position` and `begun` are auxiliary: the index in the commit log that the
      current slot stands for, and the index of the newest commit reachable
      through the head when the read began. `verHi`, `verLo` and `verEnd` are
      the versions of the slot when its timestamp halves were read. */
  datatype Reader = Reader(
    pc: ReaderPc, goal: Goal,
    slot: nat, first: int,
    hi: nat, lo: nat, copy: map<nat, int>, endLo: nat, endHi: nat,
    begun: int, position: int, verHi: int, verLo: int, verEnd: int)

  /** `head` is history_slot; `log` is auxiliary, all commits so far. */
  datatype State = State(
    ring: seq<Slot>, head: int, wpc: WriterPc,
    readers: map<nat, Reader>, log: seq<Commit>)

  datatype WriterStep =
    | ClearHi
    | ClearLo
    | Store(i: nat, v: int)
    | SetLow(ts: Timestamp)
    | SetHigh
    | Advance

  datatype ReaderStep =
    | Start(goal: Goal, start: nat)
    | Check
    | ReadHi
    | ReadLo
    | Take
    | Back
    | Move(to: nat)
    | Copy(i: nat)
    | EndLo
    | EndHi

  datatype Action = W(w: WriterStep) | R(id: nat, r: ReaderStep)

  function Init(c: Config): State {
    State(seq(c.slots, _ => Slot(0, 0, seq(c.width, _ => 0), -1)), -1, Idle, map[], [])
  }

  /** The slot after the head, which the writer fills. */
  function Target(c: Config, s: State): nat
    requires c.Valid()
  {
    if s.head < 0 then 0 else (s.head + 1) % c.slots
  }

  /** The slot a history scan starts with; a head of -1 selects the last slot. */
  function ScanStart(c: Config, s: State): nat
    requires c.Valid()
  {
    (s.head + c.slots) % c.slots
  }

  function Sample(r: Reader): Timestamp { Join(r.hi, r.lo) }

  /** Whether a Latest reader stops walking at its current sample. */
  predicate Wanted(r: Reader)
    requires r.goal.Latest?
  {
    r.goal.want == 0 || Sample(r) <= r.goal.want
  }

  /** Commit times of the writer: strictly increasing, both halves nonzero. */
  predicate GoodTime(s: State, ts: Timestamp) {
    && Hi(ts) != 0 && Lo(ts) != 0
    && (s.log != [] ==> s.log[|s.log| - 1].ts < ts)
  }

  predicate At(s: State, id: nat, pc: ReaderPc) {
    id in s.readers && s.readers[id].pc == pc
  }

  predicate WriterEnabled(c: Config, s: State, a: WriterStep) {
    match a
    case ClearHi => s.wpc == Idle || s.wpc == Filling
    case ClearLo => s.wpc == HiCleared
    case Store(i, v) => s.wpc == Filling && i < c.width
    case SetLow(ts) => s.wpc == Filling && GoodTime(s, ts)
    case SetHigh => s.wpc.LowSet?
    case Advance => s.wpc == HighSet
  }

  predicate ReaderEnabled(c: Config, s: State, id: nat, a: ReaderStep) {
    match a
    case Start(goal, start) => start < c.slots
    case Check => At(s, id, Guard)
    case ReadHi => At(s, id, SampleHi)
    case ReadLo => At(s, id, SampleLo)
    case Take => At(s, id, Decide) && (s.readers[id].goal.Free? || Wanted(s.readers[id]))
    case Back => At(s, id, Decide) && s.readers[id].goal.Latest? && !Wanted(s.readers[id])
    case Move(to) => At(s, id, Decide) && s.readers[id].goal.Free? && to < c.slots
    case Copy(i) => At(s, id, Copying) && i < c.width && i !in s.readers[id].copy
    case EndLo => At(s, id, Copying)
    case EndHi => At(s, id, FinalHi)
  }

  predicate Enabled(c: Config, s: State, a: Action) {
    match a
    case W(w) => WriterEnabled(c, s, w)
    case R(id, r) => ReaderEnabled(c, s, id, r)
  }

  ghost predicate Shaped(c: Config, s: State)
    requires c.Valid()
  {
    && |s.ring| == c.slots
    && (forall k :: 0 <= k < c.slots ==> |s.ring[k].words| == c.width)
    && -1 <= s.head < c.slots
    && (forall id :: id in s.readers ==> s.readers[id].slot < c.slots)
  }

  function WithSlot(s: State, k: nat, slot: Slot): State
    requires k < |s.ring|
  {
    s.(ring := s.ring[k := slot])
  }

  function StartReader(c: Config, s: State, goal: Goal, start: nat): Reader
    requires c.Valid() && start < c.slots
  {
    var begun := |s.log| - 1 - (if s.wpc.LowSet? || s.wpc.HighSet? then 1 else 0);
    // the slot at which a walk ends is the head itself, which is -1 for an empty ring
    Reader(if goal.Latest? then Guard else SampleHi, goal, if goal.Latest? then ScanStart(c, s) else start, s.head,
           0, 0, map[], 0, 0, begun, begun, -1, -1, -1)
  }

  function WriterDo(c: Config, s: State, a: WriterStep): (s': State)
    requires c.Valid() && Shaped(c, s) && WriterEnabled(c, s, a)
    ensures Shaped(c, s')
  {
    var t := Target(c, s);
    var target := s.ring[t];
    match a
    case ClearHi =>
      WithSlot(s, t, target.(hi := 0)).(wpc := HiCleared)
    case ClearLo =>
      WithSlot(s, t, target.(lo := 0)).(wpc := Filling)
    case Store(i, v) =>
      WithSlot(s, t, target.(words := target.words[i := v]))
    case SetLow(ts) =>
      WithSlot(s, t, target.(lo := Lo(ts), version := |s.log|))
        .(wpc := LowSet(ts), log := s.log + [Commit(ts, target.words)])
    case SetHigh =>
      WithSlot(s, t, target.(hi := Hi(s.wpc.ts))).(wpc := HighSet)
    case Advance =>
      s.(head := t, wpc := Idle)
  }

  /** The reader after one of its steps; shared memory is only read. */
  function ReaderDo(c: Config, s: State, id: nat, a: ReaderStep): (r': Reader)
    requires c.Valid() && Shaped(c, s) && ReaderEnabled(c, s, id, a)
    ensures r'.slot < c.slots
  {
    if a.Start? then StartReader(c, s, a.goal, a.start) else
    var r := s.readers[id];
    var slot := s.ring[r.slot];
    match a
    case Check =>
      r.(pc := if slot.hi == 0 then NotFound else SampleHi)
    case ReadHi =>
      r.(pc := SampleLo, hi := slot.hi, verHi := slot.version)
    case ReadLo =>
      r.(pc := Decide, lo := slot.lo, verLo := slot.version)
    case Take =>
      r.(pc := Copying, copy := map[])
    case Back =>
      var previous := (r.slot - 1 + c.slots) % c.slots;
      if previous == r.first then r.(pc := NotFound)
      else r.(pc := Guard, slot := previous, position := r.position - 1)
    case Move(to) =>
      r.(pc := SampleHi, slot := to)
    case Copy(i) =>
      r.(copy := r.copy[i := slot.words[i]])
    case EndLo =>
      r.(pc := FinalHi, endLo := slot.lo, verEnd := slot.version)
    case EndHi =>
      r.(pc := if r.lo == r.endLo && r.hi == slot.hi then Accepted else HistWrap, endHi := slot.hi)
  }

  function Do(c: Config, s: State, a: Action): (s': State)
    requires c.Valid() && Shaped(c, s) && Enabled(c, s, a)
    ensures Shaped(c, s')
  {
    match a
    case W(w) => WriterDo(c, s, w)
    case R(id, r) => s.(readers := s.readers[id := ReaderDo(c, s, id, r)])
  }

  function Exec(c: Config, acts: seq<Action>): (r: Option<State>)
    requires c.Valid()
    ensures r.Some? ==> Shaped(c, r.value)
  {
    if acts == [] then Some(Init(c))
    else
      match Exec(c, acts[..|acts| - 1])
      case None => None
      case Some(s) =>
        var a := acts[|acts| - 1];
        if Enabled(c, s, a) then Some(Do(c, s, a)) else None
  }
}
