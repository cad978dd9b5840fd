/**
 How writers and deleters of an object wake the readers that wait for its next commit:
 a mutex, a condition variable, and the visible state of the object.  Any number of threads
 take steps in any order; `Exec` runs a list of them.
 */
module Notify {
  import opened Database
  import opened Timestamps

  datatype Result = Found | Gone | Wrapped | TimedOut

  datatype Pc =
    | Idle
    // a writer: slot invalidated, notify lock taken, commit visible, waiters woken
    | Begun(ts: Timestamp)
    | Locked(ts: Timestamp)
    | Published
    | Told
    // a deleter: object marked, notify lock taken, waiters woken
    | Marked
    | DelLocked
    | DelTold
    // a reader that has seen the commit of time `seen` and waits for the next one
    | Entering(seen: Timestamp)
    | Looking(seen: Timestamp)
    | Sampled(seen: Timestamp, ts: Timestamp)
    | Copying(seen: Timestamp, ts: Timestamp)
    | Missed(seen: Timestamp)
    | MustWait(seen: Timestamp)
    | Waiting(seen: Timestamp)
    | Woken(seen: Timestamp, timeout: bool)
    | Relocked(seen: Timestamp, timeout: bool)
    | Released(seen: Timestamp, timeout: bool)
    | Leaving(result: Result)
    | Finished(result: Result)
  {
    predicate HoldsLock() {
      Locked? || Published? || Told? || DelLocked? || DelTold? || Looking? || Sampled? || Copying? || Missed?
      || MustWait? || Relocked? || Leaving?
    }
  }

  /** `head` is the time in the newest slot, 0 while that is invalid; `latest` is auxiliary, the
      time of the newest commit ever published. */
  datatype State = State(mutex: Option<nat>, head: Timestamp, latest: Timestamp, deleted: bool, pcs: map<nat, Pc>)

  datatype Action =
    | StartWrite(t: nat, ts: Timestamp)
    | StartDelete(t: nat)
    | StartWait(t: nat, seen: Timestamp)
    | Go(t: nat)
    | WakeUp(t: nat, timeout: bool)

  function Init(): State { State(None, 0, 0, false, map[]) }

  function PcOf(s: State, t: nat): Pc {
    if t in s.pcs then s.pcs[t] else Idle
  }

  function At(s: State, t: nat, pc: Pc): State {
    s.(pcs := s.pcs[t := pc])
  }

  function Lock(s: State, t: nat, pc: Pc): Option<State> {
    if s.mutex == None then Some(At(s, t, pc).(mutex := Some(t))) else None
  }

  /** An unlock by a thread that does not own the mutex is refused and ignored. */
  function Unlock(s: State, t: nat, pc: Pc): State {
    At(s, t, pc).(mutex := if s.mutex == Some(t) then None else s.mutex)
  }

  function WakeAll(pcs: map<nat, Pc>): map<nat, Pc> {
    map t | t in pcs :: if pcs[t].Waiting? then Woken(pcs[t].seen, false) else pcs[t]
  }

  function Broadcast(s: State, t: nat, pc: Pc): State {
    At(s.(pcs := WakeAll(s.pcs)), t, pc)
  }

  /** The next step of thread t, if it can take one. */
  function Step(s: State, t: nat): Option<State> {
    match PcOf(s, t)
    case Idle => None
    case Begun(ts) => Lock(s, t, Locked(ts))
    case Locked(ts) => Some(At(s, t, Published).(head := ts, latest := ts))
    case Published => Some(Broadcast(s, t, Told))
    case Told => Some(Unlock(s, t, Idle))
    case Marked => Lock(s, t, DelLocked)
    case DelLocked => Some(Broadcast(s, t, DelTold))
    case DelTold => Some(Unlock(s, t, Idle))
    case Entering(seen) => Lock(s, t, Looking(seen))
    case Looking(seen) => Some(At(s, t, if s.head == 0 then Missed(seen) else Sampled(seen, s.head)))
    case Sampled(seen, ts) => Some(At(s, t, if s.deleted then Missed(seen) else Copying(seen, ts)))
    case Copying(seen, ts) =>
      Some(At(s, t, if s.head != ts then Leaving(Wrapped) else if seen < ts then Leaving(Found) else MustWait(seen)))
    case Missed(seen) => Some(At(s, t, if s.deleted then Leaving(Gone) else MustWait(seen)))
    case MustWait(seen) => Some(Unlock(s, t, Waiting(seen)))
    case Waiting(_) => None
    case Woken(seen, timeout) => Lock(s, t, Relocked(seen, timeout))
    case Relocked(seen, timeout) => Some(Unlock(s, t, Released(seen, timeout)))
    case Released(seen, timeout) => Some(if timeout then Unlock(s, t, Finished(TimedOut)) else At(s, t, Entering(seen)))
    case Leaving(result) => Some(Unlock(s, t, Finished(result)))
    case Finished(_) => Some(At(s, t, Idle))
  }

  /** `single` says that the history has one slot: a writer then invalidates the newest commit. */
  function Do(single: bool, s: State, a: Action): Option<State> {
    match a
    case StartWrite(t, ts) =>
      if PcOf(s, t).Idle? && ts != 0 then Some(At(s, t, Begun(ts)).(head := if single then 0 else s.head)) else None
    case StartDelete(t) =>
      if PcOf(s, t).Idle? then Some(At(s, t, Marked).(deleted := true)) else None
    case StartWait(t, seen) =>
      if PcOf(s, t).Idle? then Some(At(s, t, Entering(seen))) else None
    case Go(t) => Step(s, t)
    case WakeUp(t, timeout) =>
      if PcOf(s, t).Waiting? then Some(At(s, t, Woken(PcOf(s, t).seen, timeout))) else None
  }

  function Exec(single: bool, acts: seq<Action>): Option<State> {
    if acts == [] then Some(Init())
    else
      match Exec(single, acts[..|acts| - 1])
      case None => None
      case Some(s) => Do(single, s, acts[|acts| - 1])
  }

  // ------------------------------------------------------------------- invariants

  /** The thread has changed what readers see and not yet broadcast. */
  predicate Owes(single: bool, pc: Pc) {
    pc.Published? || pc.Marked? || pc.DelLocked? || (single && Withdrew(pc))
  }

  predicate Withdrew(pc: Pc) { pc.Begun? || pc.Locked? }

  ghost predicate Pending(single: bool, s: State) {
    exists t: nat :: Owes(single, PcOf(s, t))
  }

  ghost predicate Withdrawn(s: State) {
    exists t: nat :: Withdrew(PcOf(s, t))
  }

  /** A reader that knows the commit of time `seen` has nothing to be woken for. */
  predicate Calm(s: State, seen: Timestamp) { s.latest <= seen && !s.deleted }

  ghost predicate MutexOk(s: State) {
    forall t: nat :: PcOf(s, t).HoldsLock() <==> s.mutex == Some(t)
  }

  ghost predicate HeadOk(single: bool, s: State) {
    s.head == s.latest || (single && s.head == 0 && Withdrawn(s))
  }

  ghost predicate ReaderOk(single: bool, s: State, pc: Pc) {
    match pc
    case Sampled(seen, ts) => ts == s.latest
    case Copying(seen, ts) => ts == s.latest && (!s.deleted || Pending(single, s))
    case Missed(seen) => s.deleted || s.latest <= seen || Pending(single, s)
    case MustWait(seen) => Calm(s, seen) || Pending(single, s)
    case Waiting(seen) => Calm(s, seen) || Pending(single, s)
    case _ => true
  }

  ghost predicate Inv(single: bool, s: State) {
    && MutexOk(s)
    && HeadOk(single, s)
    && forall t: nat :: ReaderOk(single, s, PcOf(s, t))
  }

  lemma {:induction false} MutexKept(single: bool, s: State, a: Action, s': State)
    requires MutexOk(s) && Do(single, s, a) == Some(s')
    ensures MutexOk(s')
  {
    forall u: nat ensures PcOf(s', u).HoldsLock() <==> s'.mutex == Some(u) {
      assert PcOf(s, u).HoldsLock() <==> s.mutex == Some(u);
      assert PcOf(s, a.t).HoldsLock() <==> s.mutex == Some(a.t);
    }
  }

  /** Only a broadcast settles what a thread owes. */
  predicate Broadcasts(s: State, a: Action) {
    a.Go? && (PcOf(s, a.t).Published? || PcOf(s, a.t).DelLocked?)
  }

  /** The steps of another thread leave a thread where it is, or wake it without a timeout. */
  lemma OtherPc(single: bool, s: State, a: Action, s': State, t: nat)
    requires Do(single, s, a) == Some(s') && a.t != t
    ensures PcOf(s', t) == PcOf(s, t)
      || (Broadcasts(s, a) && PcOf(s, t).Waiting? && PcOf(s', t) == Woken(PcOf(s, t).seen, false))
  {}

  lemma OwesOn(single: bool, s: State, a: Action, s': State)
    requires Do(single, s, a) == Some(s') && !Broadcasts(s, a)
    ensures Owes(single, PcOf(s, a.t)) ==> Owes(single, PcOf(s', a.t))
  {}

  lemma PendingKept(single: bool, s: State, a: Action, s': State)
    requires Do(single, s, a) == Some(s') && !Broadcasts(s, a)
    ensures Pending(single, s) ==> Pending(single, s')
    ensures forall u: nat :: u != a.t ==> PcOf(s', u) == PcOf(s, u)
  {
    OwesOn(single, s, a, s');
    forall u: nat | u != a.t ensures PcOf(s', u) == PcOf(s, u) {
      OtherPc(single, s, a, s', u);
    }
    if t: nat :| Owes(single, PcOf(s, t)) {
      assert Owes(single, PcOf(s', t));
    }
  }

  lemma HeadKept(single: bool, s: State, a: Action, s': State)
    requires HeadOk(single, s) && Do(single, s, a) == Some(s')
    ensures HeadOk(single, s')
  {
    if a.StartWrite? && single {
      assert Withdrew(PcOf(s', a.t));
    } else if s.head != s.latest {
      var t: nat :| Withdrew(PcOf(s, t));
      assert t != a.t || !(a.Go? && PcOf(s, t).Locked?) ==> Withdrew(PcOf(s', t));
    }
  }

  /** The thread that takes an action keeps its own promise. */
  lemma ActorOk(single: bool, s: State, a: Action, s': State)
    requires Inv(single, s) && Do(single, s, a) == Some(s')
    ensures ReaderOk(single, s', PcOf(s', a.t))
  {
    assert ReaderOk(single, s, PcOf(s, a.t));
    if !Broadcasts(s, a) { PendingKept(single, s, a, s'); }
    if a.Go? && PcOf(s, a.t).Looking? && s.head != s.latest {
      var t: nat :| Withdrew(PcOf(s, t));
      assert Owes(single, PcOf(s', t));
    }
  }

  /** The step of one thread does not break what holds of another. */
  lemma OtherOk(single: bool, s: State, a: Action, s': State, u: nat)
    requires Inv(single, s) && Do(single, s, a) == Some(s') && u != a.t
    ensures ReaderOk(single, s', PcOf(s', u))
  {
    assert ReaderOk(single, s, PcOf(s, u));
    if Broadcasts(s, a) {
      assert s.mutex == Some(a.t) && !PcOf(s, u).HoldsLock();
    } else {
      PendingKept(single, s, a, s');
      if a.Go? && PcOf(s, a.t).Locked? {
        assert s.mutex == Some(a.t) && !PcOf(s, u).HoldsLock();
        assert Owes(single, PcOf(s', a.t));
      }
      if a.StartDelete? { assert Owes(single, PcOf(s', a.t)); }
    }
  }

  lemma InvKept(single: bool, s: State, a: Action, s': State)
    requires Inv(single, s) && Do(single, s, a) == Some(s')
    ensures Inv(single, s')
  {
    MutexKept(single, s, a, s');
    HeadKept(single, s, a, s');
    forall u: nat ensures ReaderOk(single, s', PcOf(s', u)) {
      if u == a.t { ActorOk(single, s, a, s'); } else { OtherOk(single, s, a, s', u); }
    }
  }

  lemma {:induction false} InvAlways(single: bool, acts: seq<Action>, s: State)
    requires Exec(single, acts) == Some(s)
    ensures Inv(single, s)
    decreases |acts|
  {
    if acts != [] {
      var before := Exec(single, acts[..|acts| - 1]);
      InvAlways(single, acts[..|acts| - 1], before.value);
      InvKept(single, before.value, acts[|acts| - 1], s);
    }
  }

  // --------------------------------------------------------------------- theorems

  /** No lost wakeup: in every run a reader in the wait set has seen the newest commit, and the
      object exists, unless some thread still owes a broadcast. */
  lemma NoLostWakeup(single: bool, acts: seq<Action>, s: State, t: nat)
    requires Exec(single, acts) == Some(s) && PcOf(s, t).Waiting?
    ensures Calm(s, PcOf(s, t).seen) || Pending(single, s)
  {
    InvAlways(single, acts, s);
    assert ReaderOk(single, s, PcOf(s, t));
  }

  /** The mutex excludes: two threads never hold it at once, and every thread that unlocks
      after work under the lock owns it. */
  lemma MutualExclusion(single: bool, acts: seq<Action>, s: State, t: nat, u: nat)
    requires Exec(single, acts) == Some(s) && PcOf(s, t).HoldsLock() && PcOf(s, u).HoldsLock()
    ensures t == u && s.mutex == Some(t)
  {
    InvAlways(single, acts, s);
    assert PcOf(s, t).HoldsLock() <==> s.mutex == Some(t);
    assert PcOf(s, u).HoldsLock() <==> s.mutex == Some(u);
  }

  /** After a timeout the mutex is unlocked twice.  The second unlock never takes it from
      anybody. */
  lemma SecondUnlockHarmless(single: bool, acts: seq<Action>, s: State, t: nat)
    requires Exec(single, acts) == Some(s) && PcOf(s, t).Released? && PcOf(s, t).timeout
    ensures Step(s, t).Some? && Step(s, t).value.mutex == s.mutex
  {
    InvAlways(single, acts, s);
    assert PcOf(s, t).HoldsLock() <==> s.mutex == Some(t);
  }

  /** k steps of thread t alone. */
  function Alone(s: State, t: nat, k: nat): Option<State> {
    if k == 0 then Some(s)
    else
      match Alone(s, t, k - 1)
      case None => None
      case Some(m) => Step(m, t)
  }

  /** A thread that owes a broadcast pays it within three of its own steps, unless another
      thread holds the mutex, and then no reader is left in the wait set. */
  lemma OwedBroadcastComes(single: bool, s: State, t: nat) returns (k: nat, s': State)
    requires MutexOk(s) && Owes(single, PcOf(s, t))
    requires s.mutex == None || s.mutex == Some(t)
    ensures k <= 3 && Alone(s, t, k) == Some(s')
    ensures forall u: nat :: !PcOf(s', u).Waiting?
  {
    assert PcOf(s, t).HoldsLock() <==> s.mutex == Some(t);
    var s1 := Step(s, t).value;
    assert Alone(s, t, 1) == Some(s1) by { assert Alone(s, t, 0) == Some(s); }
    if PcOf(s, t).Published? || PcOf(s, t).DelLocked? {
      k, s' := 1, s1;
    } else {
      var s2 := Step(s1, t).value;
      assert Alone(s, t, 2) == Some(s2);
      if PcOf(s, t).Begun? {
        k, s' := 3, Step(s2, t).value;
      } else {
        k, s' := 2, s2;
      }
    }
  }

  // ------------------------------------------------------- what a wait comes back with

  /** The commit that thread t knew when it last began to wait. */
  function SeenAtStart(acts: seq<Action>, t: nat): Timestamp {
    if acts == [] then 0
    else
      var a := acts[|acts| - 1];
      if a.StartWait? && a.t == t then a.seen else SeenAtStart(acts[..|acts| - 1], t)
  }

  /** How thread t was last woken, other than by a broadcast, since it began to wait: by a
      timeout, or not. */
  function LastWakeUp(acts: seq<Action>, t: nat): Option<bool> {
    if acts == [] then None
    else
      var a := acts[|acts| - 1];
      if a.StartWait? && a.t == t then None
      else if a.WakeUp? && a.t == t then Some(a.timeout)
      else LastWakeUp(acts[..|acts| - 1], t)
  }

  /** What a thread that waits, or comes back from that, says about its wait. */
  ghost predicate ResultOk(single: bool, s: State, seen: Timestamp, woken: Option<bool>, pc: Pc) {
    match pc
    case Entering(x) => x == seen
    case Looking(x) => x == seen
    case Sampled(x, _) => x == seen
    case Copying(x, _) => x == seen
    case Missed(x) => x == seen
    case MustWait(x) => x == seen
    case Waiting(x) => x == seen
    case Woken(x, timeout) => x == seen && (timeout ==> woken == Some(true))
    case Relocked(x, timeout) => x == seen && (timeout ==> woken == Some(true))
    case Released(x, timeout) => x == seen && (timeout ==> woken == Some(true))
    case Leaving(r) =>
      && (r == Found ==> s.latest > seen)
      && (r == Gone ==> s.deleted)
      && (r == Wrapped ==> single && s.head != s.latest)
      && r != TimedOut
    case Finished(r) => (r == Gone ==> s.deleted) && (r == TimedOut ==> woken == Some(true))
    case _ => true
  }

  lemma OwnResult(single: bool, s: State, a: Action, s': State, seen: Timestamp, woken: Option<bool>)
    requires Inv(single, s) && Do(single, s, a) == Some(s') && ResultOk(single, s, seen, woken, PcOf(s, a.t))
    ensures ResultOk(single, s', if a.StartWait? then a.seen else seen,
      if a.StartWait? then None else if a.WakeUp? then Some(a.timeout) else woken, PcOf(s', a.t))
  {
    assert ReaderOk(single, s, PcOf(s, a.t));
  }

  lemma OtherResult(single: bool, s: State, a: Action, s': State, seen: Timestamp, woken: Option<bool>, t: nat)
    requires Inv(single, s) && Do(single, s, a) == Some(s') && ResultOk(single, s, seen, woken, PcOf(s, t))
    requires a.t != t && (PcOf(s, t).Leaving? ==> s.mutex == Some(t))
    ensures ResultOk(single, s', seen, woken, PcOf(s', t))
  {
    assert PcOf(s, a.t).HoldsLock() <==> s.mutex == Some(a.t);
    OtherPc(single, s, a, s', t);
  }

  lemma {:induction false} ResultAlways(single: bool, acts: seq<Action>, s: State, t: nat)
    requires Exec(single, acts) == Some(s)
    ensures ResultOk(single, s, SeenAtStart(acts, t), LastWakeUp(acts, t), PcOf(s, t))
    decreases |acts|
  {
    if acts != [] {
      var front := acts[..|acts| - 1];
      var before := Exec(single, front).value;
      ResultAlways(single, front, before, t);
      InvAlways(single, front, before);
      assert PcOf(before, t).HoldsLock() <==> before.mutex == Some(t);
      var a := acts[|acts| - 1];
      if a.t == t {
        OwnResult(single, before, a, s, SeenAtStart(front, t), LastWakeUp(front, t));
      } else {
        OtherResult(single, before, a, s, SeenAtStart(front, t), LastWakeUp(front, t), t);
      }
    }
  }

  /** In every run a reader comes back with success only if there is a newer commit than the one
      it knew when it began to wait, with the news of a deletion only if there was one, with a
      wrap-around only if the history has one slot and the newest commit is withdrawn, and with a
      timeout only if it was woken by one. */
  lemma WaitComesBack(single: bool, acts: seq<Action>, s: State, t: nat, r: Result)
    requires Exec(single, acts) == Some(s)
    ensures PcOf(s, t) == Leaving(r) ==>
      match r
      case Found => s.latest > SeenAtStart(acts, t)
      case Gone => s.deleted
      case Wrapped => single && s.head == 0 && Withdrawn(s)
      case TimedOut => false
    ensures PcOf(s, t) == Finished(TimedOut) ==> LastWakeUp(acts, t) == Some(true)
  {
    ResultAlways(single, acts, s, t);
    InvAlways(single, acts, s);
  }

  /** As long as nothing new can be seen, and no timeout comes, a reader does not leave. */
  lemma NothingNewNoReturn(single: bool, acts: seq<Action>, s: State, t: nat)
    requires Exec(single, acts) == Some(s) && Calm(s, SeenAtStart(acts, t)) && s.head == s.latest
    ensures !PcOf(s, t).Leaving?
    ensures PcOf(s, t) == Finished(TimedOut) ==> LastWakeUp(acts, t) == Some(true)
  {
    ResultAlways(single, acts, s, t);
  }

  /** The object counts as deleted exactly after a deletion began. */
  lemma {:induction false} DeletedByAction(single: bool, acts: seq<Action>, s: State)
    requires Exec(single, acts) == Some(s)
    ensures s.deleted <==> HasDelete(acts)
    decreases |acts|
  {
    if acts != [] {
      DeletedByAction(single, acts[..|acts| - 1], Exec(single, acts[..|acts| - 1]).value);
      FrontDeletes(acts);
    }
  }

  /** What a writer writes, and the newest commit if there is one, has a time with which a writer
      began. */
  lemma {:induction false} CommitByAction(single: bool, acts: seq<Action>, s: State, t: nat)
    requires Exec(single, acts) == Some(s)
    ensures s.latest != 0 ==> WrittenBy(acts, s.latest)
    ensures Withdrew(PcOf(s, t)) ==> PcOf(s, t).ts != 0 && WrittenBy(acts, PcOf(s, t).ts)
    decreases |acts|
  {
    if acts != [] {
      var front, a := acts[..|acts| - 1], acts[|acts| - 1];
      var before := Exec(single, front).value;
      CommitByAction(single, front, before, t);
      CommitByAction(single, front, before, a.t);
      forall ts | WrittenBy(front, ts) ensures WrittenBy(acts, ts) {
        StillWritten(acts, ts);
      }
      if a.StartWrite? { assert WrittenBy(acts, a.ts); }
      CommitStep(single, before, a, s, t);
    }
  }

  /** Where the time of a commit comes from. */
  lemma CommitStep(single: bool, s: State, a: Action, s': State, t: nat)
    requires Do(single, s, a) == Some(s')
    ensures s'.latest == s.latest || (Withdrew(PcOf(s, a.t)) && s'.latest == PcOf(s, a.t).ts)
    ensures Withdrew(PcOf(s', t)) ==>
      || (Withdrew(PcOf(s, t)) && PcOf(s', t).ts == PcOf(s, t).ts)
      || (a.StartWrite? && a.ts != 0 && PcOf(s', t).ts == a.ts)
  {
    if a.t != t { OtherPc(single, s, a, s', t); }
  }

  lemma StillWritten(acts: seq<Action>, ts: Timestamp)
    requires acts != [] && WrittenBy(acts[..|acts| - 1], ts)
    ensures WrittenBy(acts, ts)
  {
    var front := acts[..|acts| - 1];
    var i :| 0 <= i < |front| && front[i].StartWrite? && front[i].ts == ts;
    assert acts[i] == front[i];
  }

  ghost predicate WrittenBy(acts: seq<Action>, ts: Timestamp) {
    exists i :: 0 <= i < |acts| && acts[i].StartWrite? && acts[i].ts == ts
  }

  ghost predicate HasDelete(acts: seq<Action>) {
    exists i :: 0 <= i < |acts| && acts[i].StartDelete?
  }

  lemma FrontDeletes(acts: seq<Action>)
    requires acts != []
    ensures HasDelete(acts) <==> acts[|acts| - 1].StartDelete? || HasDelete(acts[..|acts| - 1])
  {
    var front := acts[..|acts| - 1];
    if i :| 0 <= i < |front| && front[i].StartDelete? { assert acts[i].StartDelete?; }
    if i :| 0 <= i < |acts| - 1 && acts[i].StartDelete? { assert front[i].StartDelete?; }
  }

  // ------------------------------------------------------------ what a thread does alone

  lemma StepOn(s: State, t: nat, k: nat, m: State) returns (m': State)
    requires Alone(s, t, k) == Some(m) && Step(m, t).Some?
    ensures Alone(s, t, k + 1) == Some(m') && m' == Step(m, t).value
  {
    m' := Step(m, t).value;
  }

  /** A reader that begins to look finds a newer commit, or the deletion, or waits. */
  lemma ReaderAlone(s: State, t: nat, seen: Timestamp) returns (k: nat)
    requires PcOf(s, t) == Entering(seen) && s.mutex == None
    ensures k <= 5
    ensures Alone(s, t, k) == Some(At(s, t,
      if s.deleted then Finished(Gone) else if s.head > seen then Finished(Found) else Waiting(seen)))
  {
    var m := StepOn(s, t, 0, s);
    m := StepOn(s, t, 1, m);
    m := StepOn(s, t, 2, m);
    m := StepOn(s, t, 3, m);
    k := 4;
    if s.head != 0 {
      m := StepOn(s, t, 4, m);
      k := 5;
    }
    assert m == At(s, t, PcOf(m, t));
  }

  /** A reader that was woken finishes after a timeout, and looks again otherwise. */
  lemma WokenAlone(s: State, t: nat, seen: Timestamp, timeout: bool)
    requires PcOf(s, t) == Woken(seen, timeout) && s.mutex == None
    ensures Alone(s, t, 3) == Some(At(s, t, if timeout then Finished(TimedOut) else Entering(seen)))
  {
    var m := StepOn(s, t, 0, s);
    m := StepOn(s, t, 1, m);
    m := StepOn(s, t, 2, m);
    assert m == At(s, t, PcOf(m, t));
  }

  /** All waiting readers are woken, without a timeout, and nothing else happens to others. */
  ghost predicate AllWoken(s: State, s': State, t: nat) {
    forall u: nat :: u != t ==>
      PcOf(s', u) == if PcOf(s, u).Waiting? then Woken(PcOf(s, u).seen, false) else PcOf(s, u)
  }

  /** A writer makes its commit the newest, and wakes all that wait. */
  lemma WriterAlone(s: State, t: nat, ts: Timestamp) returns (s': State)
    requires PcOf(s, t) == Begun(ts) && s.mutex == None
    ensures Alone(s, t, 4) == Some(s') && AllWoken(s, s', t) && PcOf(s', t) == Idle
    ensures s' == State(None, ts, ts, s.deleted, s'.pcs)
  {
    var m := StepOn(s, t, 0, s);
    m := StepOn(s, t, 1, m);
    m := StepOn(s, t, 2, m);
    s' := StepOn(s, t, 3, m);
  }

  /** A deleter wakes all that wait. */
  lemma DeleterAlone(s: State, t: nat) returns (s': State)
    requires PcOf(s, t) == Marked && s.mutex == None
    ensures Alone(s, t, 3) == Some(s') && AllWoken(s, s', t) && PcOf(s', t) == Idle
    ensures s' == s.(pcs := s'.pcs)
  {
    var m := StepOn(s, t, 0, s);
    m := StepOn(s, t, 1, m);
    s' := StepOn(s, t, 2, m);
  }

  /** A commit reaches a reader that waits for it: after the steps of its writer those of the
      reader alone end with success. */
  lemma CommitReachesWaiter(s: State, w: nat, ts: Timestamp, t: nat) returns (s1: State, k: nat, s2: State)
    requires PcOf(s, w) == Begun(ts) && s.mutex == None && !s.deleted
    requires PcOf(s, t).Waiting? && PcOf(s, t).seen < ts
    ensures Alone(s, w, 4) == Some(s1)
    ensures k <= 5 && Alone(s1, t, 3).Some? && Alone(Alone(s1, t, 3).value, t, k) == Some(s2)
    ensures PcOf(s2, t) == Finished(Found)
  {
    var seen := PcOf(s, t).seen;
    s1 := WriterAlone(s, w, ts);
    WokenAlone(s1, t, seen, false);
    var m := At(s1, t, Entering(seen));
    k := ReaderAlone(m, t, seen);
    s2 := Alone(m, t, k).value;
  }
}
