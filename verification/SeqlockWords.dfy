/**
 What a reader gets is what the writer stored: every word of a commit is the one that
 was last stored at its place before the commit, and an accepted copy holds these words.
 */
module SeqlockWords {
  import opened Database
  import opened Timestamps
  import opened Seqlock
  import opened SeqlockSafety
  import opened SeqlockTheorems

  /** An action that ends a write, or stores another word i. */
  predicate Rewrites(x: Action, i: nat) {
    x.W? && (x.w.SetLow? || (x.w.Store? && x.w.i == i))
  }

  /** Action a is the last store of word i before the commit that action b makes, of value v. */
  ghost predicate StoredLast(acts: seq<Action>, a: nat, b: nat, i: nat, v: int) {
    && a < b < |acts| && acts[a] == W(Store(i, v)) && acts[b].W? && acts[b].w.SetLow?
    && forall k :: a < k < b ==> !Rewrites(acts[k], i)
  }

  lemma LogGrows(c: Config, s: State, x: Action)
    requires c.Valid() && Shaped(c, s) && Enabled(c, s, x)
    ensures s.log <= Do(c, s, x).log
    ensures !(x.W? && x.w.SetLow?) ==> Do(c, s, x).log == s.log
  {}

  /** The word stands in the slot that the writer fills, whose time is still invalid. */
  ghost predicate Standing(c: Config, s: State, i: nat, v: int)
    requires c.Valid() && Shaped(c, s)
  {
    (s.wpc == Filling || s.wpc == HiCleared) && i < c.width && s.ring[Target(c, s)].words[i] == v
  }

  lemma StandsOn(c: Config, s: State, x: Action, i: nat, v: int)
    requires c.Valid() && Shaped(c, s) && Enabled(c, s, x)
    requires x == W(Store(i, v)) || (Standing(c, s, i, v) && !Rewrites(x, i))
    ensures Standing(c, Do(c, s, x), i, v)
  {}

  /** After its store a word stands until the commit. */
  lemma {:induction false} StoredStands(c: Config, acts: seq<Action>, a: nat, m: nat, i: nat, v: int)
    requires c.Valid() && a < m <= |acts| && Exec(c, acts[..m]).Some? && acts[a] == W(Store(i, v))
    requires forall k :: a < k < m ==> !Rewrites(acts[k], i)
    ensures Standing(c, Exec(c, acts[..m]).value, i, v)
    decreases m
  {
    assert acts[..m] == acts[..m - 1] + [acts[m - 1]];
    LastStep(c, acts[..m - 1], acts[m - 1]);
    if a < m - 1 { StoredStands(c, acts, a, m - 1, i, v); }
    StandsOn(c, Exec(c, acts[..m - 1]).value, acts[m - 1], i, v);
  }

  /** Every word of a commit is the last one stored at its place. */
  lemma CommitHasStored(c: Config, acts: seq<Action>, a: nat, b: nat, i: nat, v: int)
    requires c.Valid() && StoredLast(acts, a, b, i, v) && Exec(c, acts[..b + 1]).Some?
    ensures var log := Exec(c, acts[..b + 1]).value.log;
      && log != [] && log[|log| - 1].ts == acts[b].w.ts
      && i < |log[|log| - 1].words| && log[|log| - 1].words[i] == v
  {
    assert acts[..b + 1] == acts[..b] + [acts[b]];
    LastStep(c, acts[..b], acts[b]);
    StoredStands(c, acts, a, b, i, v);
  }

  /** The action that made commit k. */
  lemma {:induction false} CommitOf(c: Config, acts: seq<Action>, k: nat) returns (b: nat)
    requires c.Valid() && Exec(c, acts).Some? && k < |Exec(c, acts).value.log|
    ensures b < |acts| && acts[b].W? && acts[b].w.SetLow? && Exec(c, acts[..b + 1]).Some?
    ensures Exec(c, acts[..b + 1]).value.log == Exec(c, acts).value.log[..k + 1]
    decreases |acts|
  {
    var front, x := acts[..|acts| - 1], acts[|acts| - 1];
    var s := Exec(c, front).value;
    LogGrows(c, s, x);
    if k < |s.log| {
      b := CommitOf(c, front, k);
      assert front[..b + 1] == acts[..b + 1];
    } else {
      b := |acts| - 1;
      assert acts[..b + 1] == acts;
    }
  }

  /** An accepted read whose first sample has both halves nonzero holds the words that the writer
      stored for one commit: with the time of that commit, and every word copied is the last one
      stored at its place before. */
  lemma ReadIsStored(c: Config, acts: seq<Action>, id: nat) returns (b: nat)
    requires c.Valid() && Exec(c, acts).Some? && At(Exec(c, acts).value, id, Accepted)
    requires BothHalves(Exec(c, acts).value.readers[id])
    ensures var r := Exec(c, acts).value.readers[id];
      && b < |acts| && acts[b] == W(SetLow(Sample(r)))
      && forall a, i, v :: StoredLast(acts, a, b, i, v) && i in r.copy ==> r.copy[i] == v
  {
    UntornRead(c, acts, id);
    var s := Exec(c, acts).value;
    var r := s.readers[id];
    var k :| HoldsCommit(s, r, k);
    b := CommitOf(c, acts, k);
    CommitIsLast(c, acts, b, k);
    forall a, i, v | StoredLast(acts, a, b, i, v) && i in r.copy ensures r.copy[i] == v {
      CommitHasStored(c, acts, a, b, i, v);
    }
  }

  lemma CommitIsLast(c: Config, acts: seq<Action>, b: nat, k: nat)
    requires c.Valid() && Exec(c, acts).Some? && k < |Exec(c, acts).value.log| && b < |acts|
    requires acts[b].W? && acts[b].w.SetLow? && Exec(c, acts[..b + 1]).Some?
    requires Exec(c, acts[..b + 1]).value.log == Exec(c, acts).value.log[..k + 1]
    ensures var log := Exec(c, acts[..b + 1]).value.log;
      |log| == k + 1 && log[k] == Exec(c, acts).value.log[k] && log[k].ts == acts[b].w.ts
  {
    assert acts[..b + 1] == acts[..b] + [acts[b]];
    LastStep(c, acts[..b], acts[b]);
  }
}
