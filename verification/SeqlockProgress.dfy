/**
 When a lock-free read succeeds: as long as the writer does not come round to the
 slot of the commit asked for, the read neither fails nor returns anything else.
 */
module SeqlockProgress {
  import opened Database
  import opened Timestamps
  import opened Seqlock
  import opened SeqlockSafety
  import opened SeqlockTheorems
  import Modulo

  /** How many slots the writer has begun to invalidate, from the first on. */
  function Begins(s: State): nat {
    |s.log| + if s.wpc == HiCleared || s.wpc == Filling then 1 else 0
  }

  /** The slot of commit b is as it was committed. */
  ghost predicate Intact(c: Config, s: State, b: int)
    requires c.Valid() && Shaped(c, s) && 0 <= b < |s.log|
  {
    var sl := s.ring[b % c.slots];
    && sl.version == b && sl.lo == Lo(s.log[b].ts) && sl.words == s.log[b].words
    && (b < |s.log| - 1 || !s.wpc.LowSet? ==> sl.hi == Hi(s.log[b].ts))
  }

  /** So is the slot of every commit that the writer has not come round to. */
  ghost predicate AllIntact(c: Config, s: State)
    requires c.Valid() && Shaped(c, s)
  {
    forall b :: 0 <= b < |s.log| && Begins(s) <= b + c.slots ==> Intact(c, s, b)
  }

  lemma OtherSlot(c: Config, b: nat, m: nat)
    requires c.Valid() && b < m < b + c.slots
    ensures b % c.slots != m % c.slots
  {
    if b % c.slots == m % c.slots { Modulo.Apart(b, m, c.slots); }
  }

  /** The slots that a step of the writer does not touch stay intact. */
  lemma OthersStayIntact(c: Config, s: State, a: WriterStep, b: nat)
    requires c.Valid() && MemoryInv(c, s) && AllIntact(c, s) && WriterEnabled(c, s, a)
    requires var s' := WriterDo(c, s, a); b < Published(s) && Begins(s') <= b + c.slots
    ensures Intact(c, WriterDo(c, s, a), b)
  {
    TargetIsNext(c, s);
    OtherSlot(c, b, Published(s));
    assert Intact(c, s, b);
  }

  lemma WriterKeepsIntact(c: Config, s: State, a: WriterStep)
    requires c.Valid() && MemoryInv(c, s) && AllIntact(c, s) && WriterEnabled(c, s, a)
    ensures AllIntact(c, WriterDo(c, s, a))
  {
    var s' := WriterDo(c, s, a);
    TargetIsNext(c, s);
    forall b | 0 <= b < |s'.log| && Begins(s') <= b + c.slots ensures Intact(c, s', b) {
      if b < Published(s) {
        OthersStayIntact(c, s, a, b);
      } else if !a.SetLow? {
        assert Intact(c, s, b);
      }
    }
  }

  /** Commit j is what the read is to find: the latest for its time that can be reached. */
  predicate Aim(log: seq<Commit>, r: Reader, j: int)
    requires r.goal.Latest?
  {
    && 0 <= j <= r.begun < |log|
    && if r.goal.want == 0 then j == r.begun
       else log[j].ts <= r.goal.want && (j < r.begun ==> log[j + 1].ts > r.goal.want)
  }

  /** It is the latest commit that a read for its time may return. */
  lemma AimIsLatest(s: State, r: Reader, j: int)
    requires r.goal.Latest? && Increasing(s.log)
    ensures Aim(s.log, r, j) <==> Candidate(s, r, j) && forall i :: Candidate(s, r, i) ==> i <= j
  {
    if Candidate(s, r, j) && forall i :: Candidate(s, r, i) ==> i <= j {
      assert !Candidate(s, r, j + 1);
    }
  }

  /** The read of commit j has gone well so far. */
  ghost predicate Undisturbed(c: Config, log: seq<Commit>, r: Reader, j: int)
    requires c.Valid()
  {
    && 0 <= j <= r.position <= r.begun < |log|
    && r.pc != NotFound && r.pc != HistWrap
    && (HiSampled(r.pc) ==> r.hi == Hi(log[r.position].ts))
    && (LoSampled(r.pc) ==> r.lo == Lo(log[r.position].ts))
    && (r.pc in {Copying, FinalHi, Accepted} ==> r.position == j && CopyOf(log, j, r.copy))
    && (r.pc in {FinalHi, Accepted} ==> r.endLo == r.lo)
  }

  ghost predicate ReaderQuiet(c: Config, s: State, r: Reader)
    requires c.Valid()
  {
    r.goal.Latest? ==>
      && r.begun < Published(s)
      && forall j :: Aim(s.log, r, j) && Begins(s) <= j + c.slots ==> Undisturbed(c, s.log, r, j)
  }

  ghost predicate Quiet(c: Config, s: State)
    requires c.Valid()
  {
    Shaped(c, s) && AllIntact(c, s) && forall id :: id in s.readers ==> ReaderQuiet(c, s, s.readers[id])
  }

  /** Commit times increase, so the walk goes on exactly before it has come to its aim. */
  lemma WantedAtAim(log: seq<Commit>, r: Reader, j: int)
    requires r.goal.Latest? && Increasing(log) && Aim(log, r, j) && j <= r.position <= r.begun
    requires r.hi == Hi(log[r.position].ts) && r.lo == Lo(log[r.position].ts)
    ensures Wanted(r) <==> r.position == j
  {
    JoinHalves(log[r.position].ts);
    if j < r.position { assert log[j + 1].ts <= log[r.position].ts; }
  }

  lemma OwnStepUndisturbed(c: Config, s: State, id: nat, a: ReaderStep, j: int)
    requires c.Valid() && MemoryInv(c, s) && AllIntact(c, s) && ReaderEnabled(c, s, id, a) && !a.Start?
    requires var r := s.readers[id];
      && r.goal.Latest? && WalkInv(c, s, r) && r.begun < Published(s)
      && Aim(s.log, r, j) && Begins(s) <= j + c.slots && Undisturbed(c, s.log, r, j)
    ensures Undisturbed(c, s.log, ReaderDo(c, s, id, a), j)
  {
    var r := s.readers[id];
    assert Intact(c, s, r.position);
    if a.Take? {
      WantedAtAim(s.log, r, j);
    } else if a.Back? {
      WantedAtAim(s.log, r, j);
      BackGoesOn(c, r.begun, r.position);
    }
  }

  lemma BackGoesOn(c: Config, begun: nat, position: nat)
    requires c.Valid() && begun - c.slots < position - 1 && 1 <= position <= begun
    ensures (position % c.slots - 1 + c.slots) % c.slots != begun % c.slots
  {
    Modulo.Pred(position, c.slots);
    OtherSlot(c, position - 1, begun);
  }

  lemma SameAim(c: Config, s: State, id: nat, a: ReaderStep)
    requires c.Valid() && Shaped(c, s) && ReaderEnabled(c, s, id, a) && !a.Start?
    ensures ReaderDo(c, s, id, a).goal == s.readers[id].goal && ReaderDo(c, s, id, a).begun == s.readers[id].begun
  {}

  lemma OwnStepKeepsQuiet(c: Config, s: State, id: nat, a: ReaderStep)
    requires c.Valid() && MemoryInv(c, s) && AllIntact(c, s) && ReaderEnabled(c, s, id, a) && !a.Start?
    requires ReaderInv(c, s, s.readers[id]) && ReaderQuiet(c, s, s.readers[id])
    ensures ReaderQuiet(c, s, ReaderDo(c, s, id, a))
  {
    SameAim(c, s, id, a);
    var r, r' := s.readers[id], ReaderDo(c, s, id, a);
    if r'.goal.Latest? {
      forall j | Aim(s.log, r', j) && Begins(s) <= j + c.slots ensures Undisturbed(c, s.log, r', j) {
        assert Aim(s.log, r, j);
        OwnStepUndisturbed(c, s, id, a, j);
      }
    }
  }

  lemma StartIsQuiet(c: Config, s: State, goal: Goal, start: nat)
    requires c.Valid() && Shaped(c, s) && start < c.slots
    ensures ReaderQuiet(c, s, StartReader(c, s, goal, start))
  {}

  lemma OthersStayQuiet(c: Config, s: State, s': State, r: Reader)
    requires c.Valid() && ReaderQuiet(c, s, r) && s.log <= s'.log
    requires Published(s) <= Published(s') && Begins(s) <= Begins(s')
    ensures ReaderQuiet(c, s', r)
  {
    assert forall k :: 0 <= k < |s.log| ==> s'.log[k] == s.log[k];
    if r.goal.Latest? {
      forall j | Aim(s'.log, r, j) && Begins(s') <= j + c.slots ensures Undisturbed(c, s'.log, r, j) {
        assert Aim(s.log, r, j);
      }
    }
  }

  lemma WriterKeepsQuiet(c: Config, s: State, a: WriterStep)
    requires c.Valid() && MemoryInv(c, s) && Quiet(c, s) && WriterEnabled(c, s, a)
    ensures Quiet(c, WriterDo(c, s, a))
  {
    var s' := WriterDo(c, s, a);
    WriterKeepsIntact(c, s, a);
    forall id | id in s'.readers ensures ReaderQuiet(c, s', s'.readers[id]) {
      OthersStayQuiet(c, s, s', s.readers[id]);
    }
  }

  lemma SameIntact(c: Config, s: State, s': State)
    requires c.Valid() && Shaped(c, s) && AllIntact(c, s) && Shaped(c, s')
    requires s'.ring == s.ring && s'.wpc == s.wpc && s'.log == s.log
    ensures AllIntact(c, s')
  {
    forall b | 0 <= b < |s'.log| && Begins(s') <= b + c.slots ensures Intact(c, s', b) {
      assert Intact(c, s, b);
    }
  }

  lemma ReaderKeepsQuiet(c: Config, s: State, id: nat, a: ReaderStep)
    requires c.Valid() && Inv(c, s) && Quiet(c, s) && ReaderEnabled(c, s, id, a)
    ensures Quiet(c, Do(c, s, R(id, a)))
  {
    var s' := Do(c, s, R(id, a));
    if a.Start? {
      StartIsQuiet(c, s, a.goal, a.start);
    } else {
      OwnStepKeepsQuiet(c, s, id, a);
    }
    SameIntact(c, s, s');
    forall i | i in s'.readers ensures ReaderQuiet(c, s', s'.readers[i]) {
      OthersStayQuiet(c, s, s', s'.readers[i]);
    }
  }

  lemma StepKeepsQuiet(c: Config, s: State, a: Action)
    requires c.Valid() && Inv(c, s) && Quiet(c, s) && Enabled(c, s, a)
    ensures Quiet(c, Do(c, s, a))
  {
    match a
    case W(w) => WriterKeepsQuiet(c, s, w);
    case R(id, r) => ReaderKeepsQuiet(c, s, id, r);
  }

  lemma {:induction false} ExecKeepsQuiet(c: Config, acts: seq<Action>)
    requires c.Valid() && Exec(c, acts).Some?
    ensures Quiet(c, Exec(c, acts).value)
  {
    if acts != [] {
      var front := acts[..|acts| - 1];
      ExecKeepsQuiet(c, front);
      ExecKeepsInv(c, front);
      StepKeepsQuiet(c, Exec(c, front).value, acts[|acts| - 1]);
    }
  }

  /** A read for a time does not fail, and what it accepts is the latest commit for this time
      that could be reached when it began, with both halves of the sample nonzero, if the writer
      has not come round to the slot of that commit. */
  lemma QuietReadSucceeds(c: Config, acts: seq<Action>, id: nat, j: int)
    requires c.Valid() && Exec(c, acts).Some? && id in Exec(c, acts).value.readers
    requires var s := Exec(c, acts).value; var r := s.readers[id];
      r.goal.Latest? && Aim(s.log, r, j) && Begins(s) <= j + c.slots
    ensures var s := Exec(c, acts).value; var r := s.readers[id];
      && r.pc != NotFound && r.pc != HistWrap
      && (r.pc == Accepted ==> BothHalves(r) && HoldsCommit(s, r, j))
  {
    ExecKeepsInv(c, acts);
    ExecKeepsQuiet(c, acts);
    var s := Exec(c, acts).value;
    var r := s.readers[id];
    assert Undisturbed(c, s.log, r, j);
    JoinHalves(s.log[r.position].ts);
  }

  /** How many invalidations of a new slot the actions contain. */
  function Invalidations(c: Config, acts: seq<Action>): nat
    requires c.Valid()
  {
    if acts == [] then 0
    else
      var front := acts[..|acts| - 1];
      var begins := match Exec(c, front)
        case None => false
        case Some(s) => s.wpc == Idle && acts[|acts| - 1] == W(ClearHi);
      Invalidations(c, front) + if begins then 1 else 0
  }

  /** What `Begins` reads from a state is what the writer has done. */
  lemma {:induction false} BeginsAreInvalidations(c: Config, acts: seq<Action>)
    requires c.Valid() && Exec(c, acts).Some?
    ensures Begins(Exec(c, acts).value) == Invalidations(c, acts)
  {
    if acts != [] {
      var front := acts[..|acts| - 1];
      BeginsAreInvalidations(c, front);
      BeginsStep(c, Exec(c, front).value, acts[|acts| - 1]);
    }
  }

  lemma BeginsStep(c: Config, s: State, x: Action)
    requires c.Valid() && Shaped(c, s) && Enabled(c, s, x)
    ensures Begins(Do(c, s, x)) == Begins(s) + if s.wpc == Idle && x == W(ClearHi) then 1 else 0
  {}

  // -------------------------------------------------------------- the end of a read

  function UpTo(n: nat): set<nat> {
    if n == 0 then {} else UpTo(n - 1) + {n - 1}
  }

  lemma {:induction false} UpToIs(n: nat)
    ensures |UpTo(n)| == n && forall i: nat :: i in UpTo(n) <==> i < n
  {
    if n > 0 { UpToIs(n - 1); }
  }

  /** The words that a reader has not copied. */
  function ToCopy(c: Config, r: Reader): set<nat> {
    UpTo(c.width) - r.copy.Keys
  }

  /** How many more steps of its own a read can take when it has to go back so often. */
  function StepsLeft(c: Config, r: Reader, j: int): int {
    match r.pc
    case Guard => c.width + 6 + 4 * (r.position - j)
    case SampleHi => c.width + 5 + 4 * (r.position - j)
    case SampleLo => c.width + 4 + 4 * (r.position - j)
    case Decide => c.width + 3 + 4 * (r.position - j)
    case Copying => |ToCopy(c, r)| + 2
    case FinalHi => 1
    case _ => 0
  }

  lemma NothingCopied(c: Config, r: Reader)
    requires r.copy == map[]
    ensures |ToCopy(c, r)| == c.width
  {
    UpToIs(c.width);
    assert UpTo(c.width) - {} == UpTo(c.width);
  }

  lemma OneMoreCopied(c: Config, r: Reader, r': Reader, i: nat)
    requires i < c.width && i !in r.copy && r'.copy.Keys == r.copy.Keys + {i}
    ensures |ToCopy(c, r')| < |ToCopy(c, r)|
  {
    UpToIs(c.width);
    assert ToCopy(c, r') == ToCopy(c, r) - {i} && i in ToCopy(c, r);
  }

  lemma UndisturbedStepEnds(c: Config, s: State, id: nat, j: int, a: ReaderStep)
    requires c.Valid() && Shaped(c, s) && ReaderEnabled(c, s, id, a) && !a.Start?
    requires s.readers[id].goal.Latest?
    requires var r, r' := s.readers[id], ReaderDo(c, s, id, a); j <= r.position && j <= r'.position && r'.pc != NotFound
    ensures 0 <= StepsLeft(c, ReaderDo(c, s, id, a), j) < StepsLeft(c, s.readers[id], j)
  {
    if a.Take? {
      NothingCopied(c, ReaderDo(c, s, id, a));
    } else if a.Copy? {
      OneMoreCopied(c, s.readers[id], ReaderDo(c, s, id, a), a.i);
    }
  }

  /** Every step of its own brings such a read nearer to its end. */
  lemma QuietReadEnds(c: Config, acts: seq<Action>, id: nat, j: int, a: ReaderStep)
    requires c.Valid() && Exec(c, acts).Some? && id in Exec(c, acts).value.readers
    requires var s := Exec(c, acts).value; var r := s.readers[id];
      && r.goal.Latest? && Aim(s.log, r, j) && Begins(s) <= j + c.slots
      && ReaderEnabled(c, s, id, a) && !a.Start?
    ensures var s := Exec(c, acts).value;
      0 <= StepsLeft(c, ReaderDo(c, s, id, a), j) < StepsLeft(c, s.readers[id], j)
  {
    ExecKeepsInv(c, acts);
    ExecKeepsQuiet(c, acts);
    var s := Exec(c, acts).value;
    assert ReaderQuiet(c, s, s.readers[id]);
    OwnStepUndisturbed(c, s, id, a, j);
    UndisturbedStepEnds(c, s, id, j, a);
  }
}
