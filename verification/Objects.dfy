/** The entries of the object table: which are live, what a search finds, and what the
    deletion of an object takes with it. */
module Objects {
  import opened Database

  datatype Flags = Flags(writeAllow: bool, unique: bool, keepAlloc: bool, parentDelete: bool, immediatelyDelete: bool)

  /** oid 0 marks an empty entry, deleted 0 an object that exists.  `keep` is the time in
      nanoseconds that it stays after its deletion. */
  datatype Info = Info(oid: nat, name: string, otype: nat, parent: nat, creator: nat,
                       created: nat, deleted: nat, keep: nat,
                       sizeMax: nat, historySize: nat, buffer: nat, flags: Flags)
  {
    predicate Occupied() { oid != 0 }

    predicate Live() { oid != 0 && deleted == 0 }

    predicate Permits(who: Caller) { flags.writeAllow || creator == who.proc || who.admin }

    /** Bytes of the history buffer. */
    function Bytes(): nat { sizeMax * historySize }

    predicate Buffered() { oid != 0 && buffer != 0 }
  }

  type Entries = seq<Info>

  ghost predicate DistinctOids(s: Entries) {
    forall i, j :: 0 <= i < j < |s| && s[i].Occupied() ==> s[i].oid != s[j].oid
  }

  /** Created objects have a time of creation. */
  ghost predicate Dated(s: Entries) {
    forall i :: 0 <= i < |s| && s[i].Occupied() ==> s[i].created != 0
  }

  // -------------------------------------------------------------------- searching

  /** Zero and the empty name stand for anything. */
  datatype Query = Query(name: string, otype: nat, parent: nat, proc: nat, ts: nat, includeDeleted: bool)

  predicate Matches(q: Query, o: Info) {
    && o.oid != 0 && o.created != 0
    && (o.otype == q.otype || q.otype == 0)
    && (o.parent == q.parent || q.parent == 0)
    && (o.creator == q.proc || q.proc == 0)
    && !(o.deleted != 0 && !q.includeDeleted && (o.deleted < q.ts || q.ts == 0))
    && !(o.created > q.ts && q.ts != 0)
    && (q.name == "" || q.name == o.name)
  }

  /** A search without a time finds the live objects, one for a past time those that existed then,
      and one that includes deleted objects those created by then; zero and the empty name stand
      for any type, parent, creator and name. */
  lemma MatchesMeans(q: Query, o: Info)
    requires o.oid != 0 && o.created != 0
    ensures Matches(q, o) <==>
      && (if q.includeDeleted then q.ts == 0 || o.created <= q.ts
          else if q.ts == 0 then o.deleted == 0
          else o.created <= q.ts && (o.deleted == 0 || q.ts <= o.deleted))
      && (q.otype in {0, o.otype} && q.parent in {0, o.parent} && q.proc in {0, o.creator} && q.name in {"", o.name})
  {}

  /** The oids that match, in the order of the table. */
  function Matching(q: Query, s: Entries): seq<nat> {
    if s == [] then []
    else
      var o := s[|s| - 1];
      Matching(q, s[..|s| - 1]) + if Matches(q, o) then [o.oid] else []
  }

  lemma {:induction false} MatchingIff(q: Query, s: Entries, oid: nat)
    ensures oid in Matching(q, s) <==> exists i :: 0 <= i < |s| && Matches(q, s[i]) && s[i].oid == oid
    ensures |Matching(q, s)| <= |s|
  {
    if s != [] {
      var t := s[..|s| - 1];
      MatchingIff(q, t, oid);
      assert s == t + [s[|s| - 1]];
      assert forall i :: 0 <= i < |t| ==> t[i] == s[i];
    }
  }

  /** The object with a matching oid matches. */
  lemma MatchedIs(q: Query, s: Entries, oid: nat, k: nat)
    requires DistinctOids(s) && oid in Matching(q, s) && k < |s| && s[k].oid == oid
    ensures Matches(q, s[k])
  {
    MatchingIff(q, s, oid);
  }

  lemma {:induction false} MatchingNonzero(q: Query, s: Entries)
    ensures forall n :: 0 <= n < |Matching(q, s)| ==> Matching(q, s)[n] != 0
  {
    if s != [] { MatchingNonzero(q, s[..|s| - 1]); }
  }

  lemma MatchingGrows(q: Query, s: Entries, i: nat)
    requires i < |s|
    ensures Matching(q, s[..i + 1]) == Matching(q, s[..i]) + if Matches(q, s[i]) then [s[i].oid] else []
  {
    assert s[..i + 1][..i] == s[..i];
  }

  lemma {:induction false} MatchingPrefix(q: Query, s: Entries, i: nat)
    requires i <= |s|
    ensures Matching(q, s[..i]) <= Matching(q, s)
    decreases |s| - i
  {
    if i < |s| {
      MatchingGrows(q, s, i);
      MatchingPrefix(q, s, i + 1);
    } else {
      assert s[..i] == s;
    }
  }

  /** The live objects whose parent is p. */
  function Children(p: nat): Query { Query("", 0, p, 0, 0, false) }

  // --------------------------------------------------------------------- deletion

  /** The deletion of `parent` takes o with it. */
  predicate Follows(who: Caller, parent: nat, o: Info) {
    o.Live() && o.parent == parent && o.flags.parentDelete && o.Permits(who)
  }

  /** The deletion of `parent` takes the object oid with it. */
  ghost predicate Linked(who: Caller, s: Entries, parent: nat, oid: nat) {
    exists i :: 0 <= i < |s| && s[i].oid == oid && Follows(who, parent, s[i])
  }

  /** From the first object of the path each next one follows its predecessor. */
  ghost predicate Chain(who: Caller, s: Entries, path: seq<nat>) {
    forall k :: 0 <= k < |path| - 1 ==> Linked(who, s, path[k], path[k + 1])
  }

  /** The object is the one deleted or follows it through a chain of children. */
  ghost predicate Doomed(who: Caller, s: Entries, top: nat, oid: nat) {
    exists path :: |path| > 0 && path[0] == top && path[|path| - 1] == oid && Chain(who, s, path)
  }

  /** An entry after it was deleted: marked, or emptied at once if it is flagged so. */
  predicate Killed(o: Info, o': Info) {
    o.Live() && o'.deleted != 0
    && o' == o.(deleted := o'.deleted, oid := if o.flags.immediatelyDelete then 0 else o.oid)
  }

  /** Between two states of the table some live objects were deleted and nothing else changed. */
  ghost predicate OnlyDeletes(s: Entries, s': Entries) {
    |s'| == |s| && forall i :: 0 <= i < |s| ==> s'[i] == s[i] || Killed(s[i], s'[i])
  }

  /** Every entry that has changed was deleted at this time. */
  ghost predicate DeletedAt(s: Entries, s': Entries, now: nat) {
    |s'| == |s| && forall i :: 0 <= i < |s| ==> s'[i] == s[i] || s'[i].deleted == now
  }

  lemma DeletedAtTwice(s: Entries, s1: Entries, s2: Entries, now: nat)
    requires DeletedAt(s, s1, now) && DeletedAt(s1, s2, now)
    ensures DeletedAt(s, s2, now)
  {}

  predicate Gone(s: Entries, s': Entries, i: int) {
    0 <= i < |s| == |s'| && s[i].Live() && !s'[i].Live()
  }

  /** Nothing that follows object p is left. */
  ghost predicate NoneLeft(who: Caller, s': Entries, p: nat) {
    forall j :: 0 <= j < |s'| ==> !Follows(who, p, s'[j])
  }

  /** What the deletion of `top` does: only objects that follow it are deleted, and the
      children of every deleted object are deleted too. */
  ghost predicate Cascade(who: Caller, s: Entries, s': Entries, top: nat) {
    && OnlyDeletes(s, s')
    && (forall i :: Gone(s, s', i) ==> Doomed(who, s, top, s[i].oid) && NoneLeft(who, s', s[i].oid))
    && (exists i :: Gone(s, s', i) && s[i].oid == top)
  }

  lemma FollowerIsGone(who: Caller, s: Entries, s': Entries, top: nat, g: int, oid: nat) returns (i: int)
    requires Cascade(who, s, s', top) && Gone(s, s', g) && Linked(who, s, s[g].oid, oid)
    ensures Gone(s, s', i) && s[i].oid == oid
  {
    i :| 0 <= i < |s| && s[i].oid == oid && Follows(who, s[g].oid, s[i]);
    assert NoneLeft(who, s', s[g].oid);
    assert !Follows(who, s[g].oid, s'[i]);
  }

  lemma {:induction false} DoomedIsGone(who: Caller, s: Entries, s': Entries, top: nat, path: seq<nat>) returns (i: int)
    requires Cascade(who, s, s', top)
    requires |path| > 0 && path[0] == top && Chain(who, s, path)
    ensures Gone(s, s', i) && s[i].oid == path[|path| - 1]
    decreases |path|
  {
    if |path| == 1 {
      i :| Gone(s, s', i) && s[i].oid == top;
    } else {
      var m := |path| - 2;
      assert Linked(who, s, path[m], path[m + 1]);
      var g := DoomedIsGone(who, s, s', top, path[..m + 1]);
      i := FollowerIsGone(who, s, s', top, g, path[m + 1]);
    }
  }

  /** A cascade is exact: of the live objects precisely the one deleted and those that follow
      it through chains of children are gone; all others are untouched. */
  lemma CascadeIsExact(who: Caller, s: Entries, s': Entries, top: nat, i: nat)
    requires DistinctOids(s) && Cascade(who, s, s', top) && i < |s|
    ensures s[i].Live() ==> (!s'[i].Live() <==> Doomed(who, s, top, s[i].oid))
    ensures !s[i].Live() || !Doomed(who, s, top, s[i].oid) ==> s'[i] == s[i]
  {
    if s[i].Live() && Doomed(who, s, top, s[i].oid) {
      var path :| |path| > 0 && path[0] == top && path[|path| - 1] == s[i].oid && Chain(who, s, path);
      var g := DoomedIsGone(who, s, s', top, path);
      assert g == i;
    }
  }

  // ------------------------------------------------------- deletion step by step

  /** A cascade in progress: the children of `top` itself may still have to be deleted. */
  ghost predicate Partial(who: Caller, s: Entries, s': Entries, top: nat) {
    && OnlyDeletes(s, s')
    && (forall i :: Gone(s, s', i) ==> Doomed(who, s, top, s[i].oid))
    && (forall i :: Gone(s, s', i) && s[i].oid != top ==> NoneLeft(who, s', s[i].oid))
    && (exists i :: Gone(s, s', i) && s[i].oid == top)
  }

  lemma TopIsKilled(who: Caller, s: Entries, i: nat, o: Info, s': Entries)
    requires DistinctOids(s) && i < |s| && Killed(s[i], o) && s' == s[i := o]
    ensures Partial(who, s, s', s[i].oid)
  {
    var top := s[i].oid;
    assert Gone(s, s', i);
    assert [top][0] == top && Chain(who, s, [top]);
    assert Doomed(who, s, top, top);
  }

  /** Deletions only remove what follows an object. */
  lemma FollowsBack(who: Caller, s: Entries, s': Entries, p: nat, j: nat)
    requires OnlyDeletes(s, s') && j < |s| && Follows(who, p, s'[j])
    ensures s'[j] == s[j] && Follows(who, p, s[j])
  {}

  lemma LinkedBack(who: Caller, s: Entries, s': Entries, p: nat, oid: nat)
    requires OnlyDeletes(s, s') && Linked(who, s', p, oid)
    ensures Linked(who, s, p, oid)
  {
    var j :| 0 <= j < |s'| && s'[j].oid == oid && Follows(who, p, s'[j]);
    FollowsBack(who, s, s', p, j);
  }

  /** What a child's deletion takes with it, its parent's does. */
  lemma DoomedThroughChild(who: Caller, s: Entries, s1: Entries, top: nat, c: nat, oid: nat)
    requires OnlyDeletes(s, s1) && Linked(who, s1, top, c) && Doomed(who, s1, c, oid)
    ensures Doomed(who, s, top, oid)
  {
    var path :| |path| > 0 && path[0] == c && path[|path| - 1] == oid && Chain(who, s1, path);
    var longer := [top] + path;
    forall k | 0 <= k < |longer| - 1 ensures Linked(who, s, longer[k], longer[k + 1]) {
      if k > 0 { assert Linked(who, s1, path[k - 1], path[k - 1 + 1]); }
      LinkedBack(who, s, s1, longer[k], longer[k + 1]);
    }
    assert longer[|longer| - 1] == oid;
  }

  lemma OnlyDeletesTwice(s: Entries, s1: Entries, s2: Entries)
    requires OnlyDeletes(s, s1) && OnlyDeletes(s1, s2)
    ensures OnlyDeletes(s, s2)
    ensures forall i :: Gone(s, s2, i) <==> Gone(s, s1, i) || (Gone(s1, s2, i) && s1[i] == s[i])
    ensures forall i :: Gone(s1, s2, i) ==> s1[i] == s[i]
  {}

  lemma NoneLeftStays(who: Caller, s1: Entries, s2: Entries, p: nat)
    requires OnlyDeletes(s1, s2) && NoneLeft(who, s1, p)
    ensures NoneLeft(who, s2, p)
  {
    forall j | 0 <= j < |s2| ensures !Follows(who, p, s2[j]) {
      assert !Follows(who, p, s1[j]);
    }
  }

  /** The deletion of a child, with all that follows it, is a part of the cascade. */
  lemma ChildDeleted(who: Caller, s: Entries, s1: Entries, s2: Entries, top: nat, c: nat)
    requires Partial(who, s, s1, top) && Cascade(who, s1, s2, c) && Linked(who, s1, top, c)
    ensures Partial(who, s, s2, top)
  {
    OnlyDeletesTwice(s, s1, s2);
    forall i | Gone(s, s2, i)
      ensures Doomed(who, s, top, s[i].oid) && (s[i].oid != top ==> NoneLeft(who, s2, s[i].oid))
    {
      if Gone(s, s1, i) {
        if s[i].oid != top { NoneLeftStays(who, s1, s2, s[i].oid); }
      } else {
        assert Gone(s1, s2, i);
        DoomedThroughChild(who, s, s1, top, c, s1[i].oid);
      }
    }
    var g :| Gone(s, s1, g) && s[g].oid == top;
    assert Gone(s, s2, g);
  }

  /** What still follows `top` is among these oids. */
  ghost predicate LeftAmong(who: Caller, s: Entries, top: nat, oids: seq<nat>) {
    forall j :: 0 <= j < |s| && Follows(who, top, s[j]) ==> s[j].oid in oids
  }

  lemma AllAmongChildren(who: Caller, s: Entries, s': Entries, top: nat)
    requires Dated(s) && OnlyDeletes(s, s') && top != 0
    ensures LeftAmong(who, s', top, Matching(Children(top), s))
  {
    forall j | 0 <= j < |s'| && Follows(who, top, s'[j]) ensures s'[j].oid in Matching(Children(top), s) {
      FollowsBack(who, s, s', top, j);
      MatchingIff(Children(top), s, s[j].oid);
      assert Matches(Children(top), s[j]);
    }
  }

  lemma PartialIsCascade(who: Caller, s: Entries, s': Entries, top: nat)
    requires Partial(who, s, s', top) && LeftAmong(who, s', top, [])
    ensures Cascade(who, s, s', top)
  {
    assert NoneLeft(who, s', top);
  }

  /** The number of live objects, which bounds the depth of the recursion. */
  function LiveCount(s: Entries): nat {
    if s == [] then 0 else LiveCount(s[..|s| - 1]) + if s[|s| - 1].Live() then 1 else 0
  }

  lemma {:induction false} LiveCountDrops(s: Entries, s': Entries)
    requires OnlyDeletes(s, s')
    ensures LiveCount(s') <= LiveCount(s)
    ensures (exists i :: Gone(s, s', i)) ==> LiveCount(s') < LiveCount(s)
  {
    if s != [] {
      var t, t' := s[..|s| - 1], s'[..|s| - 1];
      LiveCountDrops(t, t');
      if i :| Gone(s, s', i) && i < |s| - 1 { assert Gone(t, t', i); }
    }
  }

  /** A listed child that is still live still has its parent. */
  lemma StillChild(s: Entries, s': Entries, top: nat, c: nat, j: nat)
    requires DistinctOids(s) && OnlyDeletes(s, s') && top != 0 && c in Matching(Children(top), s)
    requires j < |s| && s'[j].oid == c && s'[j].Live()
    ensures s'[j].parent == top
  {
    MatchingIff(Children(top), s, c);
    var i :| 0 <= i < |s| && Matches(Children(top), s[i]) && s[i].oid == c;
    assert s'[j] == s[j] && i == j;
  }

  /** The next child has been dealt with. */
  lemma NextChild(who: Caller, s1: Entries, s2: Entries, top: nat, oids: seq<nat>)
    requires OnlyDeletes(s1, s2) && oids != [] && LeftAmong(who, s1, top, oids)
    requires forall j :: 0 <= j < |s2| && s2[j].oid == oids[0] ==> !Follows(who, top, s2[j])
    ensures LeftAmong(who, s2, top, oids[1..])
  {
    assert oids == [oids[0]] + oids[1..];
    forall j | 0 <= j < |s2| && Follows(who, top, s2[j]) ensures s2[j].oid in oids[1..] {
      FollowsBack(who, s1, s2, top, j);
    }
  }

  /** A deleted child does not follow its parent any more. */
  lemma DeletedDoesNotFollow(who: Caller, s1: Entries, s2: Entries, top: nat, c: nat)
    requires DistinctOids(s1) && Cascade(who, s1, s2, c)
    ensures forall k :: 0 <= k < |s2| && s2[k].oid == c ==> !Follows(who, top, s2[k])
  {
    var g :| Gone(s1, s2, g) && s1[g].oid == c;
    forall k | 0 <= k < |s2| && s2[k].oid == c ensures !Follows(who, top, s2[k]) {
      assert s2[k] == s1[k] || Killed(s1[k], s2[k]);
      assert k == g;
    }
  }

  lemma DeletedChild(who: Caller, s: Entries, s1: Entries, s2: Entries, top: nat, oids: seq<nat>, j: nat)
    requires DistinctOids(s1) && Partial(who, s, s1, top) && oids != [] && LeftAmong(who, s1, top, oids)
    requires j < |s1| && s1[j].oid == oids[0] && Follows(who, top, s1[j]) && Cascade(who, s1, s2, oids[0])
    ensures Partial(who, s, s2, top) && LeftAmong(who, s2, top, oids[1..])
  {
    assert Linked(who, s1, top, oids[0]);
    ChildDeleted(who, s, s1, s2, top, oids[0]);
    DeletedDoesNotFollow(who, s1, s2, top, oids[0]);
    NextChild(who, s1, s2, top, oids);
  }

  lemma SparedChild(who: Caller, s1: Entries, top: nat, oids: seq<nat>, j: int)
    requires DistinctOids(s1) && oids != [] && oids[0] != 0 && LeftAmong(who, s1, top, oids)
    requires if j == -1 then forall k :: 0 <= k < |s1| ==> s1[k].oid != oids[0]
      else 0 <= j < |s1| && s1[j].oid == oids[0] && !Follows(who, top, s1[j])
    ensures LeftAmong(who, s1, top, oids[1..])
  {
    assert OnlyDeletes(s1, s1);
    NextChild(who, s1, s1, top, oids);
  }
}
