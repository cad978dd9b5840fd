/**
 The guarantees of a lock-free read, for every execution with one writer and any
 number of readers: the copy is untorn, and never staler than the newest fitting
 commit that was reachable when the read began.
 */
module SeqlockTheorems {
  import opened Database
  import opened Timestamps
  import opened Seqlock
  import opened SeqlockSafety

  /** Reader r holds commit k: its timestamp, and its payload in every word copied. */
  ghost predicate HoldsCommit(s: State, r: Reader, k: int) {
    && 0 <= k < |s.log|
    && s.log[k].ts == Sample(r)
    && forall i :: i in r.copy ==> i < |s.log[k].words| && r.copy[i] == s.log[k].words[i]
  }

  predicate BothHalves(r: Reader) { r.hi != 0 && r.lo != 0 }

  /** A read that passes the final comparison holds one single commit exactly if
      both halves of its first sample were nonzero. */
  lemma UntornRead(c: Config, acts: seq<Action>, id: nat)
    requires c.Valid() && Exec(c, acts).Some?
    requires At(Exec(c, acts).value, id, Accepted)
    ensures var s := Exec(c, acts).value;
      BothHalves(s.readers[id]) <==> exists k :: HoldsCommit(s, s.readers[id], k)
  {
    ExecKeepsInv(c, acts);
    var s := Exec(c, acts).value;
    var r := s.readers[id];
    assert ReaderInv(c, s, r);
    if BothHalves(r) {
      assert HoldsCommit(s, r, r.verLo);
    }
    if exists k :: HoldsCommit(s, r, k) {
      var k :| HoldsCommit(s, r, k);
      SampleHalves(c, acts, id);
    }
  }

  /** Sampled halves are 32-bit words, so a sample equal to a commit time has the
      halves of that commit time. */
  lemma SampleHalves(c: Config, acts: seq<Action>, id: nat)
    requires c.Valid() && Exec(c, acts).Some?
    requires At(Exec(c, acts).value, id, Accepted)
    ensures var r := Exec(c, acts).value.readers[id];
      Hi(Sample(r)) == r.hi && Lo(Sample(r)) == r.lo
  {
    ExecKeepsInv(c, acts);
    var s := Exec(c, acts).value;
    var r := s.readers[id];
    assert ReaderInv(c, s, r);
    assert r.lo < HALF;
  }

  /** Freshness: an accepted read for `want` returns a commit that is old enough,
      and no older than any fitting commit reachable through the head when the
      read began. With want 0 every reachable commit fits. */
  lemma NeverStalerThanAtBegin(c: Config, acts: seq<Action>, id: nat)
    requires c.Valid() && Exec(c, acts).Some?
    requires At(Exec(c, acts).value, id, Accepted)
    requires var r := Exec(c, acts).value.readers[id]; r.goal.Latest? && BothHalves(r)
    ensures var s := Exec(c, acts).value;
      var r := s.readers[id];
      exists k :: && HoldsCommit(s, r, k)
                  && (r.goal.want != 0 ==> s.log[k].ts <= r.goal.want)
                  && forall j :: Candidate(s, r, j) ==> j <= k
  {
    ExecKeepsInv(c, acts);
    var s := Exec(c, acts).value;
    var r := s.readers[id];
    assert ReaderInv(c, s, r);
    assert HoldsCommit(s, r, r.verLo);
  }

  /** What `begun` means: at its start a read notes the newest commit the head
      points to, and keeps it until the read is restarted. */
  lemma BegunIsReachableAtStart(c: Config, acts: seq<Action>, goal: Goal, start: nat, id: nat, later: seq<Action>)
    requires c.Valid() && Exec(c, acts + [R(id, Start(goal, start))] + later).Some?
    requires forall k :: 0 <= k < |later| ==> !(later[k].R? && later[k].id == id && later[k].r.Start?)
    ensures Exec(c, acts).Some?
    ensures var s := Exec(c, acts).value;
      var r := Exec(c, acts + [R(id, Start(goal, start))] + later).value.readers;
      && id in r && r[id].goal == goal
      && r[id].begun == Published(s) - 1
      && s.head == (if Published(s) == 0 then -1 else (Published(s) - 1) % c.slots)
  {
    BegunStays(c, acts + [R(id, Start(goal, start))], later, id);
    LastStep(c, acts, R(id, Start(goal, start)));
    HeadIsPublished(c, acts);
  }

  lemma HeadIsPublished(c: Config, acts: seq<Action>)
    requires c.Valid() && Exec(c, acts).Some?
    ensures var s := Exec(c, acts).value;
      s.head == (if Published(s) == 0 then -1 else (Published(s) - 1) % c.slots)
  {
    ExecKeepsInv(c, acts);
  }

  lemma {:induction false} BegunStays(c: Config, acts: seq<Action>, later: seq<Action>, id: nat)
    requires c.Valid() && Exec(c, acts + later).Some?
    requires forall k :: 0 <= k < |later| ==> !(later[k].R? && later[k].id == id && later[k].r.Start?)
    ensures Exec(c, acts).Some?
    ensures var r, r' := Exec(c, acts).value.readers, Exec(c, acts + later).value.readers;
      id in r ==> id in r' && r'[id].goal == r[id].goal && r'[id].begun == r[id].begun
    decreases |later|
  {
    if later == [] {
      assert acts + later == acts;
    } else {
      var front, last := later[..|later| - 1], later[|later| - 1];
      assert acts + later == (acts + front) + [last];
      LastStep(c, acts + front, last);
      BegunStays(c, acts, front, id);
      if id in Exec(c, acts).value.readers {
        StepKeepsBegun(c, Exec(c, acts + front).value, last, id);
      }
    }
  }

  lemma LastStep(c: Config, acts: seq<Action>, a: Action)
    requires c.Valid() && Exec(c, acts + [a]).Some?
    ensures Exec(c, acts).Some? && Enabled(c, Exec(c, acts).value, a)
    ensures Exec(c, acts + [a]).value == Do(c, Exec(c, acts).value, a)
  {
    assert (acts + [a])[..|acts|] == acts;
  }

  lemma StepKeepsBegun(c: Config, s: State, a: Action, id: nat)
    requires c.Valid() && Shaped(c, s) && Enabled(c, s, a) && id in s.readers
    requires !(a.R? && a.id == id && a.r.Start?)
    ensures var s' := Do(c, s, a);
      && id in s'.readers
      && s'.readers[id].goal == s.readers[id].goal && s'.readers[id].begun == s.readers[id].begun
  {}

  // ------------------------------------------------- a zero sample can be torn

  lemma Extend(c: Config, acts: seq<Action>, s: State, a: Action) returns (acts': seq<Action>, s': State)
    requires c.Valid() && Exec(c, acts) == Some(s) && Enabled(c, s, a)
    ensures acts' == acts + [a] && Exec(c, acts') == Some(s') && s' == Do(c, s, a)
  {
    acts' := acts + [a];
    s' := Do(c, s, a);
    assert acts'[..|acts'| - 1] == acts;
  }

  /** A reader samples a slot whose timestamp is cleared and copies word 0. */
  lemma SampleCleared(c: Config, acts: seq<Action>, s: State) returns (acts': seq<Action>, s': State)
    requires c == Config(2, 2) && Exec(c, acts) == Some(s)
    requires At(s, 0, SampleHi) && s.readers[0].goal == Latest(0)
    requires var sl := s.ring[s.readers[0].slot]; sl.hi == 0 && sl.lo == 0
    ensures Exec(c, acts') == Some(s') && At(s', 0, Copying)
    ensures s' == s.(readers := s'.readers)
    ensures var r, r' := s.readers[0], s'.readers[0];
      && r'.slot == r.slot && r'.goal == r.goal && r'.hi == 0 && r'.lo == 0
      && r'.copy == map[0 := s.ring[r.slot].words[0]]
  {
    acts', s' := Extend(c, acts, s, R(0, ReadHi));
    acts', s' := Extend(c, acts', s', R(0, ReadLo));
    acts', s' := Extend(c, acts', s', R(0, Take));
    acts', s' := Extend(c, acts', s', R(0, Copy(0)));
  }

  /** The reader copies word 1 and compares with a timestamp that is still cleared. */
  lemma FinishCleared(c: Config, acts: seq<Action>, s: State) returns (acts': seq<Action>, s': State)
    requires c == Config(2, 2) && Exec(c, acts) == Some(s)
    requires At(s, 0, Copying) && 1 !in s.readers[0].copy
    requires var r := s.readers[0]; r.hi == 0 && r.lo == 0 && s.ring[r.slot].hi == 0 && s.ring[r.slot].lo == 0
    ensures Exec(c, acts') == Some(s') && At(s', 0, Accepted) && s'.log == s.log
    ensures var r := s.readers[0];
      s'.readers[0].copy == r.copy[1 := s.ring[r.slot].words[1]]
  {
    acts', s' := Extend(c, acts, s, R(0, Copy(1)));
    acts', s' := Extend(c, acts', s', R(0, EndLo));
    acts', s' := Extend(c, acts', s', R(0, EndHi));
  }

  /** The writer stores both words of the slot it is filling. */
  lemma StoreBoth(c: Config, acts: seq<Action>, s: State, v: int) returns (acts': seq<Action>, s': State)
    requires c == Config(2, 2) && Exec(c, acts) == Some(s) && s.wpc == Filling
    ensures Exec(c, acts') == Some(s')
    ensures var t := Target(c, s); s' == s.(ring := s.ring[t := s.ring[t].(words := [v, v])])
  {
    acts', s' := Extend(c, acts, s, W(Store(0, v)));
    acts', s' := Extend(c, acts', s', W(Store(1, v)));
    assert s'.ring[Target(c, s)].words == [v, v];
  }

  /** The writer invalidates the next slot. */
  lemma ClearBoth(c: Config, acts: seq<Action>, s: State) returns (acts': seq<Action>, s': State)
    requires c.Valid() && Exec(c, acts) == Some(s) && s.wpc == Idle
    ensures Exec(c, acts') == Some(s')
    ensures var t := Target(c, s);
      s' == s.(ring := s.ring[t := s.ring[t].(hi := 0, lo := 0)], wpc := Filling)
  {
    acts', s' := Extend(c, acts, s, W(ClearHi));
    acts', s' := Extend(c, acts', s', W(ClearLo));
  }

  /** The writer makes the slot it has filled valid and moves the head to it. */
  lemma Publish(c: Config, acts: seq<Action>, s: State, ts: Timestamp) returns (acts': seq<Action>, s': State)
    requires c.Valid() && Exec(c, acts) == Some(s) && s.wpc == Filling && GoodTime(s, ts)
    ensures Exec(c, acts') == Some(s')
    ensures var t := Target(c, s);
      s' == State(s.ring[t := Slot(Hi(ts), Lo(ts), s.ring[t].words, |s.log|)], t, Idle, s.readers,
                  s.log + [Commit(ts, s.ring[t].words)])
  {
    acts', s' := Extend(c, acts, s, W(SetLow(ts)));
    acts', s' := Extend(c, acts', s', W(SetHigh));
    acts', s' := Extend(c, acts', s', W(Advance));
  }

  /** The writer fills the next slot with two equal words and publishes it. */
  lemma WriteBoth(c: Config, acts: seq<Action>, s: State, ts: Timestamp, v: int)
    returns (acts': seq<Action>, s': State)
    requires c == Config(2, 2) && Exec(c, acts) == Some(s) && s.wpc == Idle && GoodTime(s, ts)
    ensures Exec(c, acts') == Some(s')
    ensures var t := Target(c, s);
      s' == State(s.ring[t := Slot(Hi(ts), Lo(ts), [v, v], |s.log|)], t, Idle, s.readers,
                  s.log + [Commit(ts, [v, v])])
  {
    acts', s' := ClearBoth(c, acts, s);
    acts', s' := StoreBoth(c, acts', s', v);
    acts', s' := Publish(c, acts', s', ts);
  }

  /** Without the condition on the first sample an accepted read can be torn: the
      reader checks the high half of the newest slot, the writer goes once around
      the ring and invalidates that slot, and both samples are zero while the
      payload is being replaced. */
  lemma ZeroSampleCanBeTorn()
    ensures exists c: Config, acts: seq<Action>, id: nat ::
      && c.Valid() && Exec(c, acts).Some? && At(Exec(c, acts).value, id, Accepted)
      && var s := Exec(c, acts).value;
         && s.readers[id].copy == map[0 := 7, 1 := 9]
         && forall k :: 0 <= k < |s.log| ==> s.log[k].words != [7, 9]
  {
    var acts, s := TornRun();
    assert Config(2, 2).Valid() && Exec(Config(2, 2), acts).Some? && At(Exec(Config(2, 2), acts).value, 0, Accepted);
  }

  lemma TornRun() returns (acts: seq<Action>, s: State)
    ensures Exec(Config(2, 2), acts) == Some(s) && At(s, 0, Accepted)
    ensures s.readers[0].copy == map[0 := 7, 1 := 9]
    ensures s.log == [Commit(Join(1, 1), [7, 7]), Commit(Join(1, 2), [8, 8])]
  {
    var c := Config(2, 2);
    acts, s := InvalidatedRead(c);
    acts, s := SampleCleared(c, acts, s);
    acts, s := StoreBoth(c, acts, s, 9);
    acts, s := FinishCleared(c, acts, s);
  }

  /** That reader, after the writer has gone around and invalidated its slot. */
  lemma InvalidatedRead(c: Config) returns (acts: seq<Action>, s: State)
    requires c == Config(2, 2)
    ensures Exec(c, acts) == Some(s) && s.wpc == Filling && Target(c, s) == 0
    ensures s.log == [Commit(Join(1, 1), [7, 7]), Commit(Join(1, 2), [8, 8])]
    ensures s.ring[0].hi == 0 && s.ring[0].lo == 0 && s.ring[0].words == [7, 7]
    ensures At(s, 0, SampleHi) && s.readers[0].slot == 0 && s.readers[0].goal == Latest(0)
  {
    acts, s := StartedRead(c);
    var s0 := s;
    assert Target(c, s0) == 1;
    acts, s := WriteBoth(c, acts, s0, Join(1, 2), 8);
    assert s.head == 1 && s.ring[0] == s0.ring[0] && Target(c, s) == 0;
    acts, s := ClearBoth(c, acts, s);
  }

  /** One commit of [7, 7], and a reader that has passed the check of its slot. */
  lemma StartedRead(c: Config) returns (acts: seq<Action>, s: State)
    requires c == Config(2, 2)
    ensures Exec(c, acts) == Some(s) && s.wpc == Idle && s.head == 0
    ensures s.log == [Commit(Join(1, 1), [7, 7])] && s.ring[0].words == [7, 7]
    ensures At(s, 0, SampleHi) && s.readers[0].slot == 0 && s.readers[0].goal == Latest(0)
  {
    acts, s := WriteBoth(c, [], Init(c), Join(1, 1), 7);
    acts, s := Extend(c, acts, s, R(0, Start(Latest(0), 0)));
    acts, s := Extend(c, acts, s, R(0, Check));
  }
}
