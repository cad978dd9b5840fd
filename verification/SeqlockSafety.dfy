/**
 What every execution of the lock-free ring guarantees to a reader whose final
 timestamp comparison succeeds.
 */
module SeqlockSafety {
  import opened Database
  import opened Timestamps
  import opened Seqlock
  import Modulo

  // ---------------------------------------------------------------- invariant

  /** Number of commits reachable through the head. */
  function Published(s: State): int {
    |s.log| - (if s.wpc.LowSet? || s.wpc.HighSet? then 1 else 0)
  }

  ghost predicate Increasing(log: seq<Commit>) {
    && (forall i, j :: 0 <= i < j < |log| ==> log[i].ts < log[j].ts)
    && (forall i :: 0 <= i < |log| ==> Hi(log[i].ts) != 0 && Lo(log[i].ts) != 0)
  }

  ghost predicate SlotInv(c: Config, log: seq<Commit>, k: nat, sl: Slot)
    requires c.Valid()
  {
    && -1 <= sl.version < |log|
    && (sl.version >= 0 ==> sl.version % c.slots == k)
    && (sl.lo != 0 ==> sl.version >= 0 && sl.lo == Lo(log[sl.version].ts) && sl.words == log[sl.version].words)
    && (sl.hi != 0 ==> sl.version >= 0 && sl.hi == Hi(log[sl.version].ts))
  }

  ghost predicate WriterInv(c: Config, s: State)
    requires c.Valid() && Shaped(c, s)
  {
    var target := s.ring[Target(c, s)];
    && Published(s) >= 0
    && s.head == (if Published(s) == 0 then -1 else (Published(s) - 1) % c.slots)
    && (s.wpc == HiCleared ==> target.hi == 0)
    && (s.wpc == Filling ==> target.hi == 0 && target.lo == 0)
    && (s.wpc.LowSet? ==> target.version == |s.log| - 1 && s.log[|s.log| - 1].ts == s.wpc.ts)
  }

  ghost predicate MemoryInv(c: Config, s: State)
    requires c.Valid()
  {
    && Shaped(c, s)
    && Increasing(s.log)
    && (forall k :: 0 <= k < c.slots ==> SlotInv(c, s.log, k, s.ring[k]))
    && (forall j :: 0 <= j < |s.log| ==> Holds(c, s, j))
    && WriterInv(c, s)
  }

  /** The slot of commit j has reached at least commit j. */
  ghost predicate Holds(c: Config, s: State, j: int)
    requires c.Valid() && Shaped(c, s)
  {
    s.ring[j % c.slots].version >= j
  }

  /** Every copied word is the corresponding word of commit k. */
  ghost predicate CopyOf(log: seq<Commit>, k: int, copy: map<nat, int>) {
    && 0 <= k < |log|
    && forall i :: i in copy ==> i < |log[k].words| && copy[i] == log[k].words[i]
  }

  predicate HiSampled(pc: ReaderPc) { pc != Guard && pc != SampleHi && pc != NotFound }

  predicate LoSampled(pc: ReaderPc) { HiSampled(pc) && pc != SampleLo }

  ghost predicate ReaderInv(c: Config, s: State, r: Reader)
    requires c.Valid() && Shaped(c, s)
  {
    && r.slot < c.slots
    && -1 <= r.begun < |s.log|
    && var sl := s.ring[r.slot];
    && (HiSampled(r.pc) ==>
        && -1 <= r.verHi <= sl.version < |s.log|
        && (r.verHi >= 0 ==> r.verHi % c.slots == r.slot)
        && (r.hi != 0 ==> r.verHi >= 0 && r.hi == Hi(s.log[r.verHi].ts)))
    && (LoSampled(r.pc) ==>
        && r.verHi <= r.verLo <= sl.version
        && (r.verLo >= 0 ==> r.verLo % c.slots == r.slot)
        && (r.lo != 0 ==> r.verLo >= 0 && r.lo == Lo(s.log[r.verLo].ts)))
    && (r.pc == Copying && r.lo != 0 && sl.lo != 0 && sl.version == r.verLo ==>
        CopyOf(s.log, r.verLo, r.copy))
    && (r.pc == FinalHi ==>
        && r.verLo <= r.verEnd <= sl.version
        && (r.endLo != 0 ==> r.verEnd >= 0 && r.endLo == Lo(s.log[r.verEnd].ts))
        && (r.lo != 0 && r.endLo != 0 && r.verEnd == r.verLo ==> CopyOf(s.log, r.verLo, r.copy)))
    && (r.pc == Accepted && r.hi != 0 && r.lo != 0 ==>
        r.verLo >= 0 && s.log[r.verLo].ts == Sample(r) && CopyOf(s.log, r.verLo, r.copy))
    && (r.goal.Latest? ==> WalkInv(c, s, r))
  }

  /** Commit j was reachable when the read began and is old enough for it. */
  predicate Candidate(s: State, r: Reader, j: int)
    requires r.goal.Latest?
  {
    0 <= j <= r.begun < |s.log| && (r.goal.want == 0 || s.log[j].ts <= r.goal.want)
  }

  ghost predicate WalkInv(c: Config, s: State, r: Reader)
    requires c.Valid() && Shaped(c, s) && r.goal.Latest? && r.slot < c.slots
  {
    && r.position <= r.begun && (r.begun >= 0 ==> r.begun - c.slots < r.position)
    && r.slot == r.position % c.slots
    && r.first == (if r.begun < 0 then -1 else r.begun % c.slots)
    && (r.goal.want == 0 ==> r.position == r.begun)
    // a candidate behind which the walk has gone back has been overwritten
    && (forall j :: Candidate(s, r, j) && r.position < j ==> j + c.slots < |s.log|)
    && (HiSampled(r.pc) ==> r.verHi >= r.position)
    && (LoSampled(r.pc) ==> forall j :: Candidate(s, r, j) ==> j <= r.verLo)
    && (LoSampled(r.pc) && r.pc != Decide ==> Wanted(r))
  }

  ghost predicate Inv(c: Config, s: State)
    requires c.Valid()
  {
    MemoryInv(c, s) && forall id :: id in s.readers ==> ReaderInv(c, s, s.readers[id])
  }

  // ------------------------------------------------------------------- writer

  lemma TargetIsNext(c: Config, s: State)
    requires c.Valid() && Shaped(c, s) && WriterInv(c, s)
    ensures Target(c, s) == Published(s) % c.slots
  {
    if Published(s) == 0 {
      Modulo.SmallId(0, c.slots);
    } else {
      Modulo.Succ(Published(s) - 1, c.slots);
    }
  }

  /** Replacing the target slot by one of the same or a newer version. */
  lemma SlotUpdate(c: Config, s: State, s': State, t: nat)
    requires c.Valid() && MemoryInv(c, s) && Shaped(c, s') && t < c.slots
    requires s'.ring == s.ring[t := s'.ring[t]] && s.log <= s'.log
    requires SlotInv(c, s'.log, t, s'.ring[t]) && s.ring[t].version <= s'.ring[t].version
    ensures forall k :: 0 <= k < c.slots ==> SlotInv(c, s'.log, k, s'.ring[k])
    ensures forall j :: 0 <= j < |s.log| ==> Holds(c, s', j)
  {
    assert forall k :: 0 <= k < |s.log| ==> s'.log[k] == s.log[k];
    forall k | 0 <= k < c.slots ensures SlotInv(c, s'.log, k, s'.ring[k]) {
      assert SlotInv(c, s.log, k, s.ring[k]);
    }
    forall j | 0 <= j < |s.log| ensures Holds(c, s', j) {
      assert Holds(c, s, j);
    }
  }

  lemma SetLowKeepsMemory(c: Config, s: State, ts: Timestamp)
    requires c.Valid() && MemoryInv(c, s) && WriterEnabled(c, s, SetLow(ts))
    ensures MemoryInv(c, WriterDo(c, s, SetLow(ts)))
  {
    var s' := WriterDo(c, s, SetLow(ts));
    var t := Target(c, s);
    TargetIsNext(c, s);
    assert SlotInv(c, s.log, t, s.ring[t]);
    SlotUpdate(c, s, s', t);
    assert Holds(c, s', |s.log|);
    assert Increasing(s'.log);
    assert Target(c, s') == t;
  }

  lemma AdvanceKeepsMemory(c: Config, s: State)
    requires c.Valid() && MemoryInv(c, s) && s.wpc == HighSet
    ensures MemoryInv(c, WriterDo(c, s, Advance))
  {
    var s' := WriterDo(c, s, Advance);
    TargetIsNext(c, s);
    forall j | 0 <= j < |s.log| ensures Holds(c, s', j) { assert Holds(c, s, j); }
  }

  lemma WriterKeepsMemory(c: Config, s: State, a: WriterStep)
    requires c.Valid() && MemoryInv(c, s) && WriterEnabled(c, s, a)
    ensures MemoryInv(c, WriterDo(c, s, a))
  {
    if a.SetLow? {
      SetLowKeepsMemory(c, s, a.ts);
    } else if a.Advance? {
      AdvanceKeepsMemory(c, s);
    } else {
      var t := Target(c, s);
      assert SlotInv(c, s.log, t, s.ring[t]);
      SlotUpdate(c, s, WriterDo(c, s, a), t);
    }
  }

  /** What a reader may rely on while the writer moves: the log only grows, slot
      versions never decrease, and a slot whose low half is set again has a new
      version. */
  ghost predicate Evolves(c: Config, s: State, s': State)
    requires c.Valid() && Shaped(c, s) && Shaped(c, s')
  {
    && s.log <= s'.log
    && forall k :: 0 <= k < c.slots ==>
         && s.ring[k].version <= s'.ring[k].version
         && (s'.ring[k].version == s.ring[k].version && s'.ring[k].lo != 0 ==> s.ring[k].lo != 0)
  }

  lemma WriterEvolves(c: Config, s: State, a: WriterStep)
    requires c.Valid() && MemoryInv(c, s) && WriterEnabled(c, s, a)
    ensures Evolves(c, s, WriterDo(c, s, a))
  {
    TargetIsNext(c, s);
  }

  lemma ReaderStable(c: Config, s: State, s': State, r: Reader)
    requires c.Valid() && MemoryInv(c, s) && MemoryInv(c, s') && Evolves(c, s, s')
    requires ReaderInv(c, s, r)
    ensures ReaderInv(c, s', r)
  {
    assert forall k :: 0 <= k < |s.log| ==> s'.log[k] == s.log[k];
    if r.goal.Latest? {
      assert forall j :: Candidate(s', r, j) ==> Candidate(s, r, j);
    }
  }

  // ------------------------------------------------------------------ readers

  lemma StartKeepsReader(c: Config, s: State, goal: Goal, start: nat)
    requires c.Valid() && MemoryInv(c, s) && start < c.slots
    ensures ReaderInv(c, s, StartReader(c, s, goal, start))
  {
    if goal.Latest? {
      Modulo.Shift(s.head, c.slots);
      if s.head < 0 {
        assert (-1) % c.slots == c.slots - 1 by { Modulo.Unique(-1, c.slots, -1, c.slots - 1); }
      } else {
        Modulo.SmallId(s.head, c.slots);
      }
    }
  }

  /** A slot reached by the walk holds at least the version its position stands
      for, and a newer one when the walk has passed an overwritten candidate. */
  lemma SlotIsFresh(c: Config, s: State, r: Reader, j: int)
    requires c.Valid() && MemoryInv(c, s) && r.goal.Latest? && r.slot < c.slots
    requires r.begun < |s.log| && WalkInv(c, s, r) && Candidate(s, r, j)
    ensures j <= s.ring[r.slot].version
  {
    if r.position >= j {
      assert Holds(c, s, r.position);
    } else {
      Modulo.Shift(r.position, c.slots);
      assert Holds(c, s, r.position + c.slots);
    }
  }

  /** Walking back past a candidate: its slot has been overwritten. */
  lemma PassedIsOverwritten(c: Config, s: State, r: Reader)
    requires c.Valid() && MemoryInv(c, s) && ReaderInv(c, s, r)
    requires r.goal.Latest? && r.pc == Decide && !Wanted(r) && Candidate(s, r, r.position)
    ensures r.position + c.slots < |s.log|
  {
    var j := r.position;
    var T := s.log[j].ts;
    JoinHalves(T);
    assert r.hi != 0;
    if r.verHi > j {
      Modulo.Apart(j, r.verHi, c.slots);
    } else if r.verLo > j {
      Modulo.Apart(j, r.verLo, c.slots);
    }
  }

  lemma BackKeepsWalk(c: Config, s: State, r: Reader, r': Reader)
    requires c.Valid() && MemoryInv(c, s) && ReaderInv(c, s, r)
    requires r.goal.Latest? && r.pc == Decide && !Wanted(r)
    requires (r.slot - 1 + c.slots) % c.slots != r.first
    requires r' == r.(pc := Guard, slot := (r.slot - 1 + c.slots) % c.slots, position := r.position - 1)
    ensures WalkInv(c, s, r')
  {
    Modulo.Pred(r.position, c.slots);
    if r.begun >= 0 && r.position - 1 == r.begun - c.slots {
      Modulo.Shift(r.begun - c.slots, c.slots);
      assert false;
    }
    forall j | Candidate(s, r', j) && r'.position < j ensures j + c.slots < |s.log| {
      assert Candidate(s, r, j);
      if j == r.position { PassedIsOverwritten(c, s, r); }
    }
  }

  lemma BackKeepsReader(c: Config, s: State, id: nat)
    requires c.Valid() && MemoryInv(c, s) && ReaderEnabled(c, s, id, Back) && ReaderInv(c, s, s.readers[id])
    ensures ReaderInv(c, s, ReaderDo(c, s, id, Back))
  {
    var r := s.readers[id];
    var r' := ReaderDo(c, s, id, Back);
    if r'.pc == Guard {
      BackKeepsWalk(c, s, r, r');
    } else {
      assert forall j :: Candidate(s, r', j) ==> Candidate(s, r, j);
    }
  }

  /** The slot of a walk is as new as its position and as all candidates. */
  lemma WalkSlot(c: Config, s: State, r: Reader)
    requires c.Valid() && MemoryInv(c, s) && r.goal.Latest? && r.slot < c.slots
    requires r.begun < |s.log| && WalkInv(c, s, r)
    ensures r.position <= s.ring[r.slot].version
    ensures forall j :: Candidate(s, r, j) ==> j <= s.ring[r.slot].version
  {
    assert SlotInv(c, s.log, r.slot, s.ring[r.slot]);
    if r.position >= 0 { assert Holds(c, s, r.position); }
    forall j | Candidate(s, r, j) ensures j <= s.ring[r.slot].version {
      SlotIsFresh(c, s, r, j);
    }
  }

  lemma SampleKeepsWalk(c: Config, s: State, id: nat, a: ReaderStep)
    requires c.Valid() && MemoryInv(c, s) && ReaderEnabled(c, s, id, a)
    requires a.Check? || a.ReadHi? || a.ReadLo? || a.Take?
    requires var r := s.readers[id]; r.goal.Latest? && r.begun < |s.log| && WalkInv(c, s, r)
    ensures WalkInv(c, s, ReaderDo(c, s, id, a))
  {
    var r := s.readers[id];
    WalkSlot(c, s, r);
    assert forall j :: Candidate(s, ReaderDo(c, s, id, a), j) == Candidate(s, r, j);
  }

  lemma SampleKeepsReader(c: Config, s: State, id: nat, a: ReaderStep)
    requires c.Valid() && MemoryInv(c, s) && ReaderEnabled(c, s, id, a)
    requires a.Check? || a.ReadHi? || a.ReadLo? || a.Take? || a.Move?
    requires ReaderInv(c, s, s.readers[id])
    ensures ReaderInv(c, s, ReaderDo(c, s, id, a))
  {
    var r := s.readers[id];
    assert SlotInv(c, s.log, r.slot, s.ring[r.slot]);
    if r.goal.Latest? { SampleKeepsWalk(c, s, id, a); }
  }

  /** The heart of the protocol: equal samples before and after the copy mean
      that the low half stayed that of one commit throughout. */
  lemma EqualSamplesSameVersion(c: Config, s: State, r: Reader)
    requires c.Valid() && MemoryInv(c, s) && ReaderInv(c, s, r)
    requires r.pc == FinalHi && r.hi != 0 && r.lo != 0
    requires r.endLo == r.lo && s.ring[r.slot].hi == r.hi
    ensures r.verEnd == r.verLo && s.log[r.verLo].ts == Sample(r)
  {
    var d := s.ring[r.slot].version;
    assert SlotInv(c, s.log, r.slot, s.ring[r.slot]);
    assert 0 <= r.verHi <= r.verLo <= r.verEnd <= d;
    forall k | r.verHi <= k <= d ensures Hi(s.log[k].ts) == r.hi {
      if k > r.verHi { HiMonotone(s.log[r.verHi].ts, s.log[k].ts); }
      if k < d { HiMonotone(s.log[k].ts, s.log[d].ts); }
    }
    JoinHalves(s.log[r.verLo].ts);
    JoinHalves(s.log[r.verEnd].ts);
    assert s.log[r.verLo].ts == s.log[r.verEnd].ts;
  }

  lemma WalkIgnoresCopy(c: Config, s: State, r: Reader, r': Reader)
    requires c.Valid() && Shaped(c, s) && r.goal.Latest? && r.slot < c.slots && WalkInv(c, s, r)
    requires r.pc == Copying || r.pc == FinalHi
    requires r' == r.(pc := r'.pc, copy := r'.copy, endLo := r'.endLo, endHi := r'.endHi, verEnd := r'.verEnd)
    ensures WalkInv(c, s, r')
  {
    assert forall j :: Candidate(s, r', j) == Candidate(s, r, j);
  }

  lemma CopyKeepsReader(c: Config, s: State, id: nat, i: nat)
    requires c.Valid() && MemoryInv(c, s) && ReaderEnabled(c, s, id, Copy(i)) && ReaderInv(c, s, s.readers[id])
    ensures ReaderInv(c, s, ReaderDo(c, s, id, Copy(i)))
  {
    var r := s.readers[id];
    assert SlotInv(c, s.log, r.slot, s.ring[r.slot]);
    if r.goal.Latest? { WalkIgnoresCopy(c, s, r, ReaderDo(c, s, id, Copy(i))); }
  }

  lemma EndLoKeepsReader(c: Config, s: State, id: nat)
    requires c.Valid() && MemoryInv(c, s) && ReaderEnabled(c, s, id, EndLo) && ReaderInv(c, s, s.readers[id])
    ensures ReaderInv(c, s, ReaderDo(c, s, id, EndLo))
  {
    var r := s.readers[id];
    assert SlotInv(c, s.log, r.slot, s.ring[r.slot]);
    if r.goal.Latest? { WalkIgnoresCopy(c, s, r, ReaderDo(c, s, id, EndLo)); }
  }

  lemma EndHiKeepsReader(c: Config, s: State, id: nat)
    requires c.Valid() && MemoryInv(c, s) && ReaderEnabled(c, s, id, EndHi) && ReaderInv(c, s, s.readers[id])
    ensures ReaderInv(c, s, ReaderDo(c, s, id, EndHi))
  {
    var r := s.readers[id];
    var r' := ReaderDo(c, s, id, EndHi);
    if r'.pc == Accepted && r.hi != 0 && r.lo != 0 {
      EqualSamplesSameVersion(c, s, r);
    }
    if r.goal.Latest? { WalkIgnoresCopy(c, s, r, r'); }
  }

  lemma OwnStepKeepsReader(c: Config, s: State, id: nat, a: ReaderStep)
    requires c.Valid() && MemoryInv(c, s) && ReaderEnabled(c, s, id, a)
    requires id in s.readers ==> ReaderInv(c, s, s.readers[id])
    ensures ReaderInv(c, s, ReaderDo(c, s, id, a))
  {
    if a.Start? {
      StartKeepsReader(c, s, a.goal, a.start);
    } else if a.Back? {
      BackKeepsReader(c, s, id);
    } else if a.Copy? {
      CopyKeepsReader(c, s, id, a.i);
    } else if a.EndLo? {
      EndLoKeepsReader(c, s, id);
    } else if a.EndHi? {
      EndHiKeepsReader(c, s, id);
    } else {
      SampleKeepsReader(c, s, id, a);
    }
  }

  lemma WriterKeepsInv(c: Config, s: State, a: WriterStep)
    requires c.Valid() && Inv(c, s) && WriterEnabled(c, s, a)
    ensures Inv(c, WriterDo(c, s, a))
  {
    var s' := WriterDo(c, s, a);
    WriterKeepsMemory(c, s, a);
    WriterEvolves(c, s, a);
    forall id | id in s'.readers ensures ReaderInv(c, s', s'.readers[id]) {
      ReaderStable(c, s, s', s.readers[id]);
    }
  }

  lemma ReaderKeepsInv(c: Config, s: State, id: nat, a: ReaderStep)
    requires c.Valid() && Inv(c, s) && ReaderEnabled(c, s, id, a)
    ensures Inv(c, Do(c, s, R(id, a)))
  {
    var s' := Do(c, s, R(id, a));
    OwnStepKeepsReader(c, s, id, a);
    SameMemory(c, s, s');
    forall i | i in s'.readers ensures ReaderInv(c, s', s'.readers[i]) {
      ReaderStable(c, s, s', s'.readers[i]);
    }
  }

  lemma StepKeepsInv(c: Config, s: State, a: Action)
    requires c.Valid() && Inv(c, s) && Enabled(c, s, a)
    ensures Inv(c, Do(c, s, a))
  {
    match a
    case W(w) => WriterKeepsInv(c, s, w);
    case R(id, r) => ReaderKeepsInv(c, s, id, r);
  }

  lemma SameMemory(c: Config, s: State, s': State)
    requires c.Valid() && MemoryInv(c, s) && Shaped(c, s')
    requires s'.ring == s.ring && s'.head == s.head && s'.wpc == s.wpc && s'.log == s.log
    ensures MemoryInv(c, s') && Evolves(c, s, s')
  {
    forall j | 0 <= j < |s.log| ensures Holds(c, s', j) { assert Holds(c, s, j); }
  }

  lemma {:induction false} ExecKeepsInv(c: Config, acts: seq<Action>)
    requires c.Valid() && Exec(c, acts).Some?
    ensures Inv(c, Exec(c, acts).value)
  {
    if acts == [] {
      Modulo.SmallId(0, c.slots);
    } else {
      var front := acts[..|acts| - 1];
      ExecKeepsInv(c, front);
      StepKeepsInv(c, Exec(c, front).value, acts[|acts| - 1]);
    }
  }
}
