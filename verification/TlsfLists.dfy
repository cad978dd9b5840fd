/** The free lists of the tlsf allocator: doubly linked through the free blocks, one for each
    size class, with a bit for every nonempty list and one for every nonempty row. */
module TlsfLists {
  import opened Bits
  import opened TlsfMapping

  /** The two words a free block starts with. */
  datatype Link = Link(prev: nat, next: nat)

  type Links = map<nat, Link>

  ghost predicate Distinct(list: seq<nat>) {
    forall j, k :: 0 <= j < k < |list| ==> list[j] != list[k]
  }

  function At(list: seq<nat>, k: int): nat {
    if 0 <= k < |list| then list[k] else 0
  }

  ghost predicate LinkedAt(list: seq<nat>, links: Links, k: nat)
    requires k < |list|
  {
    && list[k] != 0
    && list[k] in links
    && links[list[k]] == Link(At(list, k - 1), At(list, k + 1))
  }

  /** The blocks are linked both ways in the order of the list, and end in 0. */
  ghost predicate Linked(list: seq<nat>, links: Links) {
    forall k {:trigger LinkedAt(list, links, k)} :: 0 <= k < |list| ==> LinkedAt(list, links, k)
  }

  /** Exactly the blocks of list i are members of class i. */
  ghost predicate Holds(list: seq<nat>, members: map<nat, nat>, i: nat) {
    && (forall k :: 0 <= k < |list| ==> list[k] in members && members[list[k]] == i)
    && (forall a :: a in members && members[a] == i ==> a in list)
  }

  ghost predicate ClassOk(matrix: seq<nat>, links: Links, lists: seq<seq<nat>>, members: map<nat, nat>, i: nat)
    requires i < |lists| && i < |matrix|
  {
    && matrix[i] == At(lists[i], 0)
    && Linked(lists[i], links)
    && Distinct(lists[i])
    && Holds(lists[i], members, i)
  }

  ghost predicate ListsOk(matrix: seq<nat>, links: Links, lists: seq<seq<nat>>, members: map<nat, nat>) {
    && |matrix| == |lists| == CLASSES
    && (forall a :: a in members ==> members[a] < CLASSES)
    && (forall i :: 0 <= i < CLASSES ==> ClassOk(matrix, links, lists, members, i))
  }

  /** A bit is set exactly if its list is not empty, and a row's exactly if the row has a bit. */
  ghost predicate RowOk(rows: seq<nat>, top: nat, lists: seq<seq<nat>>, f: nat)
    requires |rows| == REAL_FLI && |lists| == CLASSES && f < REAL_FLI
  {
    && rows[f] < WORD
    && (Bit(top, f) <==> rows[f] != 0)
    && (forall s :: 0 <= s < MAX_SLI ==> (Bit(rows[f], s) <==> lists[f * MAX_SLI + s] != []))
  }

  ghost predicate BitsOk(rows: seq<nat>, top: nat, lists: seq<seq<nat>>) {
    && |rows| == REAL_FLI
    && |lists| == CLASSES
    && top < Pow2(REAL_FLI)
    && forall f :: 0 <= f < REAL_FLI ==> RowOk(rows, top, lists, f)
  }

  // ------------------------------------------------------------------------ bits

  ghost predicate SameButOne(lists: seq<seq<nat>>, lists': seq<seq<nat>>, i: nat) {
    && |lists'| == |lists|
    && i < |lists|
    && forall j :: 0 <= j < |lists| && j != i ==> lists'[j] == lists[j]
  }

  lemma OtherRow(rows: seq<nat>, top: nat, lists: seq<seq<nat>>, rows': seq<nat>, top': nat, lists': seq<seq<nat>>,
                 i: nat, g: nat)
    requires |rows| == |rows'| == REAL_FLI && |lists| == CLASSES && SameButOne(lists, lists', i)
    requires g < REAL_FLI && i / MAX_SLI != g && RowOk(rows, top, lists, g)
    requires rows'[g] == rows[g] && Bit(top', g) == Bit(top, g)
    ensures RowOk(rows', top', lists', g)
  {}

  lemma SetRow(rows: seq<nat>, top: nat, lists: seq<seq<nat>>, rows': seq<nat>, top': nat, lists': seq<seq<nat>>,
               f: nat, s: nat)
    requires |rows| == |rows'| == REAL_FLI && |lists| == CLASSES && f < REAL_FLI && s < MAX_SLI
    requires SameButOne(lists, lists', f * MAX_SLI + s) && lists'[f * MAX_SLI + s] != []
    requires RowOk(rows, top, lists, f) && rows'[f] == SetBit(rows[f], s) && Bit(top', f)
    ensures RowOk(rows', top', lists', f)
  {
    Pow2Is();
    Bounds(rows[f], s, 32);
    BitOfSet(rows[f], s, s);
    ZeroHasNoBit(s);
    forall t | 0 <= t < MAX_SLI ensures Bit(rows'[f], t) <==> lists'[f * MAX_SLI + t] != [] {
      BitOfSet(rows[f], s, t);
    }
  }

  lemma ClearRow(rows: seq<nat>, top: nat, lists: seq<seq<nat>>, rows': seq<nat>, top': nat, lists': seq<seq<nat>>,
                 f: nat, s: nat)
    requires |rows| == |rows'| == REAL_FLI && |lists| == CLASSES && f < REAL_FLI && s < MAX_SLI
    requires SameButOne(lists, lists', f * MAX_SLI + s) && lists'[f * MAX_SLI + s] == []
    requires RowOk(rows, top, lists, f) && rows'[f] == ClearBit(rows[f], s) && (Bit(top', f) <==> rows'[f] != 0)
    ensures RowOk(rows', top', lists', f)
  {
    Pow2Is();
    Bounds(rows[f], s, 32);
    forall t | 0 <= t < MAX_SLI ensures Bit(rows'[f], t) <==> lists'[f * MAX_SLI + t] != [] {
      BitOfClear(rows[f], s, t);
    }
  }

  lemma SetBits(rows: seq<nat>, top: nat, lists: seq<seq<nat>>, rows': seq<nat>, top': nat, lists': seq<seq<nat>>,
                f: nat, s: nat)
    requires BitsOk(rows, top, lists) && f < REAL_FLI && s < MAX_SLI
    requires SameButOne(lists, lists', f * MAX_SLI + s) && lists'[f * MAX_SLI + s] != []
    requires rows' == rows[f := SetBit(rows[f], s)] && top' == SetBit(top, f)
    ensures BitsOk(rows', top', lists')
  {
    Bounds(top, f, REAL_FLI);
    forall g | 0 <= g < REAL_FLI ensures RowOk(rows', top', lists', g) {
      BitOfSet(top, f, g);
      if g == f {
        SetRow(rows, top, lists, rows', top', lists', f, s);
      } else {
        OtherRow(rows, top, lists, rows', top', lists', f * MAX_SLI + s, g);
      }
    }
  }

  lemma ClearBits(rows: seq<nat>, top: nat, lists: seq<seq<nat>>, rows': seq<nat>, top': nat, lists': seq<seq<nat>>,
                  f: nat, s: nat)
    requires BitsOk(rows, top, lists) && f < REAL_FLI && s < MAX_SLI
    requires SameButOne(lists, lists', f * MAX_SLI + s)
    requires lists'[f * MAX_SLI + s] == [] && lists[f * MAX_SLI + s] != []
    requires rows' == rows[f := ClearBit(rows[f], s)] && top' == if rows'[f] == 0 then ClearBit(top, f) else top
    ensures BitsOk(rows', top', lists')
  {
    Bounds(top, f, REAL_FLI);
    assert Bit(top, f) by {
      assert RowOk(rows, top, lists, f);
      ZeroHasNoBit(s);
    }
    forall g | 0 <= g < REAL_FLI ensures RowOk(rows', top', lists', g) {
      BitOfClear(top, f, g);
      if g == f {
        ClearRow(rows, top, lists, rows', top', lists', f, s);
      } else {
        OtherRow(rows, top, lists, rows', top', lists', f * MAX_SLI + s, g);
      }
    }
  }

  lemma KeepBits(rows: seq<nat>, top: nat, lists: seq<seq<nat>>, lists': seq<seq<nat>>, i: nat)
    requires BitsOk(rows, top, lists)
    requires SameButOne(lists, lists', i) && lists[i] != [] && lists'[i] != []
    ensures BitsOk(rows, top, lists')
  {
    forall g | 0 <= g < REAL_FLI ensures RowOk(rows, top, lists', g) {
      assert RowOk(rows, top, lists, g);
    }
  }

  // ----------------------------------------------------------------------- links

  /** What the stores of an insertion do to the links. */
  ghost predicate Pushed(links: Links, links': Links, b: nat, head: nat) {
    && b in links' && links'[b] == Link(0, head)
    && (head != 0 && head in links ==> head in links' && links'[head] == links[head].(prev := b))
    && forall a :: a in links && a != b && a != head ==> a in links' && links'[a] == links[a]
  }

  lemma PushLinked(list: seq<nat>, links: Links, links': Links, b: nat)
    requires Linked(list, links) && Distinct(list) && b != 0 && b !in list
    requires Pushed(links, links', b, At(list, 0))
    ensures Linked([b] + list, links') && Distinct([b] + list)
  {
    var list' := [b] + list;
    forall k | 0 <= k < |list'| ensures LinkedAt(list', links', k) {
      if k > 0 {
        assert LinkedAt(list, links, k - 1);
        assert list'[k] == list[k - 1] && list[k - 1] in list;
      }
    }
  }

  /** The stores that led from one map to the other were to these addresses. */
  ghost predicate Only<V>(m: map<nat, V>, m': map<nat, V>, addrs: set<nat>) {
    forall x :: x in m' && x !in addrs ==> x in m && m'[x] == m[x]
  }

  lemma OnlyThen<V>(m: map<nat, V>, m': map<nat, V>, m'': map<nat, V>, s: set<nat>, s': set<nat>, all: set<nat>)
    requires Only(m, m', s) && Only(m', m'', s') && s <= all && s' <= all
    ensures Only(m, m'', all)
  {}

  /** What the stores of a removal do to the links of the other blocks. */
  ghost predicate Unlinked(links: Links, links': Links, b: nat) {
    b in links &&
    forall a :: a in links && a != b && a != 0 ==>
      && a in links'
      && links'[a] == Link(if a == links[b].next then links[b].prev else links[a].prev,
                           if a == links[b].prev then links[b].next else links[a].next)
  }

  /** The links of an entry, and where its neighbours are. */
  lemma Around(list: seq<nat>, links: Links, p: nat)
    requires Linked(list, links) && Distinct(list) && p < |list|
    ensures list[p] in links && list[p] != 0 && links[list[p]] == Link(At(list, p - 1), At(list, p + 1))
    ensures p > 0 ==> list[p - 1] in links && list[p - 1] != 0 && list[p - 1] != list[p]
    ensures p + 1 < |list| ==> list[p + 1] in links && list[p + 1] != 0 && list[p + 1] != list[p]
    ensures 0 < p && p + 1 < |list| ==> list[p - 1] != list[p + 1]
    ensures list[0] == list[p] <==> p == 0
  {
    assert LinkedAt(list, links, p);
    assert p > 0 ==> LinkedAt(list, links, p - 1);
    assert p + 1 < |list| ==> LinkedAt(list, links, p + 1);
  }

  function Without(list: seq<nat>, p: nat): seq<nat>
    requires p < |list|
  {
    list[..p] + list[p + 1..]
  }

  lemma UnlinkedAt(list: seq<nat>, links: Links, links': Links, p: nat, k: nat)
    requires p < |list| && k < |list| && k != p && Distinct(list)
    requires LinkedAt(list, links, p) && LinkedAt(list, links, k)
    requires Unlinked(links, links', list[p])
    ensures list[k] in links' && list[k] != 0
    ensures links'[list[k]] == Link(if k == p + 1 then At(list, p - 1) else At(list, k - 1),
                                    if k + 1 == p then At(list, p + 1) else At(list, k + 1))
  {}

  lemma RemoveLinked(list: seq<nat>, links: Links, links': Links, p: nat)
    requires Linked(list, links) && Distinct(list) && p < |list|
    requires Unlinked(links, links', list[p])
    ensures Linked(Without(list, p), links') && Distinct(Without(list, p)) && list[p] !in Without(list, p)
  {
    var list' := Without(list, p);
    assert LinkedAt(list, links, p);
    forall k | 0 <= k < |list'| ensures LinkedAt(list', links', k) {
      var j := if k < p then k else k + 1;
      assert LinkedAt(list, links, j);
      UnlinkedAt(list, links, links', p, j);
    }
  }

  lemma OtherClass(matrix: seq<nat>, links: Links, lists: seq<seq<nat>>, members: map<nat, nat>,
                   matrix': seq<nat>, links': Links, lists': seq<seq<nat>>, members': map<nat, nat>, j: nat)
    requires j < |lists| == |matrix| == |lists'| == |matrix'|
    requires ClassOk(matrix, links, lists, members, j)
    requires matrix'[j] == matrix[j] && lists'[j] == lists[j]
    requires forall a :: a in members && members[a] == j && a in links && a != 0 ==>
      a in links' && links'[a] == links[a]
    requires forall a :: (a in members && members[a] == j) <==> (a in members' && members'[a] == j)
    ensures ClassOk(matrix', links', lists', members', j)
  {
    forall k | 0 <= k < |lists[j]| ensures LinkedAt(lists[j], links', k) {
      assert LinkedAt(lists[j], links, k);
    }
  }

  lemma Inserted(matrix: seq<nat>, links: Links, lists: seq<seq<nat>>, members: map<nat, nat>,
                 matrix': seq<nat>, links': Links, lists': seq<seq<nat>>, members': map<nat, nat>, i: nat, b: nat)
    requires ListsOk(matrix, links, lists, members)
    requires i < CLASSES && b != 0 && b !in members
    requires matrix' == matrix[i := b] && Pushed(links, links', b, matrix[i])
    requires lists' == lists[i := [b] + lists[i]] && members' == members[b := i]
    ensures ListsOk(matrix', links', lists', members')
  {
    assert ClassOk(matrix, links, lists, members, i);
    forall j | 0 <= j < CLASSES ensures ClassOk(matrix', links', lists', members', j) {
      if j == i {
        PushLinked(lists[i], links, links', b);
        assert forall k :: 0 < k < |lists'[i]| ==> lists'[i][k] == lists[i][k - 1];
        assert lists'[i][0] == b;
        assert forall a :: a in lists[i] ==> a in lists'[i];
      } else {
        assert ClassOk(matrix, links, lists, members, j);
        OtherClass(matrix, links, lists, members, matrix', links', lists', members', j);
      }
    }
  }

  lemma WithoutHolds(list: seq<nat>, members: map<nat, nat>, i: nat, p: nat)
    requires Holds(list, members, i) && Distinct(list) && p < |list|
    ensures Holds(Without(list, p), members - {list[p]}, i)
  {
    var b, list', members' := list[p], Without(list, p), members - {list[p]};
    forall a | a in members' && members'[a] == i ensures a in list' {
      var k :| 0 <= k < |list| && list[k] == a;
      if k < p { assert list'[k] == a; } else { assert list'[k - 1] == a; }
    }
    forall k | 0 <= k < |list'| ensures list'[k] in members' && members'[list'[k]] == i {
      assert list'[k] == list[if k < p then k else k + 1];
    }
  }

  lemma Removed(matrix: seq<nat>, links: Links, lists: seq<seq<nat>>, members: map<nat, nat>,
                matrix': seq<nat>, links': Links, lists': seq<seq<nat>>, members': map<nat, nat>, i: nat, p: nat)
    requires ListsOk(matrix, links, lists, members)
    requires i < CLASSES && p < |lists[i]|
    requires Unlinked(links, links', lists[i][p])
    requires matrix' == if p == 0 then matrix[i := At(lists[i], 1)] else matrix
    requires lists' == lists[i := Without(lists[i], p)] && members' == members - {lists[i][p]}
    ensures ListsOk(matrix', links', lists', members')
  {
    var list, b := lists[i], lists[i][p];
    assert ClassOk(matrix, links, lists, members, i);
    assert LinkedAt(list, links, p);
    assert links[b] == Link(At(list, p - 1), At(list, p + 1));
    forall j | 0 <= j < CLASSES ensures ClassOk(matrix', links', lists', members', j) {
      assert ClassOk(matrix, links, lists, members, j);
      if j == i {
        RemoveLinked(list, links, links', p);
        WithoutHolds(list, members, i, p);
      } else {
        assert p > 0 ==> members[list[p - 1]] == i;
        assert p + 1 < |list| ==> members[list[p + 1]] == i;
        OtherClass(matrix, links, lists, members, matrix', links', lists', members', j);
      }
    }
  }

  // ------------------------------------------------------------------- searching

  lemma FfsOfWord(w: nat, r: int)
    requires w < WORD && IsLowest(AsInt32(w), r) && r < 32
    ensures if w == 0 then r == -1 else r >= 0 && Bit(w, r) && forall j :: 0 <= j < r ==> !Bit(w, j)
  {
    forall j | 0 <= j < 32 ensures Bit(AsInt32(w), j) == Bit(w, j) {
      BitOfInt32(w, j);
    }
  }

  lemma BitOfInt32(w: nat, j: nat)
    requires w < WORD && j < 32
    ensures Bit(AsInt32(w), j) == Bit(w, j)
  {
    Pow2Is();
    if w >= WORD / 2 { BitWraps(w, 32, j); }
  }

  /** The lowest bit of w that is not below s. */
  method NextBit(w: nat, s: nat) returns (r: int)
    requires w < WORD && s <= 32
    ensures r < 32
    ensures r < 0 ==> forall j :: s <= j < 32 ==> !Bit(w, j)
    ensures r >= 0 ==> s <= r && Bit(w, r) && forall j :: s <= j < r ==> !Bit(w, j)
  {
    var tmp := ClearLow(w, s);
    ClearLowBound(w, s);
    r := Ffs(AsInt32(tmp));
    FfsOfWord(tmp, r);
    forall j: nat ensures Bit(tmp, j) <==> s <= j && Bit(w, j) {
      BitOfClearLow(w, s, j);
    }
    if r < 0 {
      forall j | s <= j < 32 ensures !Bit(w, j) {
        ZeroHasNoBit(j);
      }
    }
  }

  lemma EmptyInRow(rows: seq<nat>, top: nat, lists: seq<seq<nat>>, f: nat, s: nat, t: nat)
    requires BitsOk(rows, top, lists) && f < REAL_FLI && t <= MAX_SLI
    requires forall k :: s <= k < t ==> !Bit(rows[f], k)
    ensures forall j :: f * MAX_SLI + s <= j < f * MAX_SLI + t ==> lists[j] == []
  {
    assert RowOk(rows, top, lists, f);
    forall j | f * MAX_SLI + s <= j < f * MAX_SLI + t ensures lists[j] == [] {
      assert !Bit(rows[f], j - f * MAX_SLI);
    }
  }

  lemma EmptyRows(rows: seq<nat>, top: nat, lists: seq<seq<nat>>, f: nat, g: nat)
    requires BitsOk(rows, top, lists) && g <= REAL_FLI
    requires forall k :: f <= k < g ==> !Bit(top, k)
    ensures forall j :: f * MAX_SLI <= j < g * MAX_SLI ==> lists[j] == []
  {
    forall j | f * MAX_SLI <= j < g * MAX_SLI ensures lists[j] == [] {
      var k := j / MAX_SLI;
      assert RowOk(rows, top, lists, k);
      ZeroHasNoBit(j % MAX_SLI);
      assert !Bit(rows[k], j % MAX_SLI);
    }
  }

  ghost predicate NoneFrom(members: map<nat, nat>, i: nat, j: nat) {
    forall a :: a in members && i <= members[a] ==> j <= members[a]
  }

  lemma EmptyNoMember(matrix: seq<nat>, links: Links, lists: seq<seq<nat>>, members: map<nat, nat>, i: nat, j: nat)
    requires ListsOk(matrix, links, lists, members) && j <= CLASSES
    requires forall k :: i <= k < j ==> lists[k] == []
    ensures NoneFrom(members, i, j)
  {
    forall a | a in members && i <= members[a] ensures j <= members[a] {
      assert ClassOk(matrix, links, lists, members, members[a]);
    }
  }

  lemma TopFits(top: nat)
    requires top < Pow2(REAL_FLI)
    ensures top < WORD
  {
    Pow2Is();
  }

  lemma BelowTop(top: nat, f: nat)
    requires top < Pow2(REAL_FLI) && Bit(top, f)
    ensures f < REAL_FLI
  {
    if f >= REAL_FLI { NoHighBits(top, REAL_FLI, f); }
  }

  lemma NonzeroRow(w: nat)
    requires 0 < w < WORD
    ensures exists s :: 0 <= s < 32 && Bit(w, s)
  {
    Pow2Is();
    var s := SomeBit(w);
    if s >= 32 { NoHighBits(w, 32, s); }
  }

  lemma HeadOfList(matrix: seq<nat>, links: Links, lists: seq<seq<nat>>, members: map<nat, nat>, i: nat)
    requires ListsOk(matrix, links, lists, members) && i < CLASSES && lists[i] != []
    ensures matrix[i] == lists[i][0] != 0 && lists[i][0] in members && members[lists[i][0]] == i
  {
    assert ClassOk(matrix, links, lists, members, i);
    assert LinkedAt(lists[i], links, 0);
  }
}
