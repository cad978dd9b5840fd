/**
 The circular list of free cells that the suba allocator keeps in the cells
 themselves, in ascending address order, and how it follows the cells.
 References are offsets from the start of the region.
 */
module SubaList {
  import opened Blocks
  import opened SubaCells

  /** The fields of a cell header. `next` lies in the memory handed out, so it is
      meaningful for free cells only. */
  datatype Header = Header(size: nat, next: nat)

  type Memory = map<nat, Header>

  // ------------------------------------------------------- the free list as such

  /** Addresses of the free cells, ascending. */
  function FreeList(cells: seq<Cell>): seq<nat> {
    if cells == [] then []
    else (if cells[0].used then [] else [cells[0].addr]) + FreeList(cells[1..])
  }

  lemma {:induction false} FreeListConcat(a: seq<Cell>, b: seq<Cell>)
    ensures FreeList(a + b) == FreeList(a) + FreeList(b)
  {
    if a == [] {
      assert a + b == b;
    } else {
      assert (a + b)[1..] == a[1..] + b;
      FreeListConcat(a[1..], b);
    }
  }

  lemma FreeListThree(low: seq<Cell>, mid: seq<Cell>, high: seq<Cell>)
    ensures FreeList(low + mid + high) == FreeList(low) + FreeList(mid) + FreeList(high)
  {
    FreeListConcat(low + mid, high);
    FreeListConcat(low, mid);
  }

  lemma CutAt(cells: seq<Cell>, k: nat)
    requires k < |cells|
    ensures cells == cells[..k] + [cells[k]] + cells[k + 1..]
    ensures cells[..k + 1] == cells[..k] + [cells[k]]
  {}

  lemma FreeListOne(c: Cell)
    ensures FreeList([c]) == if c.used then [] else [c.addr]
  {}

  lemma {:induction false} FreeListAllUsed(cells: seq<Cell>)
    requires forall i :: 0 <= i < |cells| ==> cells[i].used
    ensures FreeList(cells) == []
  {
    if cells != [] { FreeListAllUsed(cells[1..]); }
  }

  /** Free cell k is entry |FreeList(cells[..k])| of the free list. */
  lemma FreeListAt(cells: seq<Cell>, k: nat)
    requires k < |cells| && !cells[k].used
    ensures FreeList(cells) == FreeList(cells[..k]) + [cells[k].addr] + FreeList(cells[k + 1..])
    ensures FreeList(cells[..k + 1]) == FreeList(cells[..k]) + [cells[k].addr]
  {
    CutAt(cells, k);
    FreeListThree(cells[..k], [cells[k]], cells[k + 1..]);
    FreeListOne(cells[k]);
    FreeListConcat(cells[..k], [cells[k]]);
  }

  /** The free list is strictly ascending. */
  lemma {:induction false} FreeListAscending(cells: seq<Cell>, lo: nat)
    requires forall i :: 0 <= i < |cells| ==> lo <= cells[i].addr
    requires forall i, j :: 0 <= i < j < |cells| ==> cells[i].addr < cells[j].addr
    ensures forall t :: 0 <= t < |FreeList(cells)| ==> lo <= FreeList(cells)[t]
    ensures forall t, u :: 0 <= t < u < |FreeList(cells)| ==> FreeList(cells)[t] < FreeList(cells)[u]
  {
    if cells != [] { FreeListAscending(cells[1..], cells[0].addr + 1); }
  }

  /** The free cell that follows position i, which exists because the last is free. */
  function NextFree(cells: seq<Cell>, i: nat): (k: nat)
    requires i < |cells| && !cells[|cells| - 1].used
    ensures i <= k < |cells| && !cells[k].used
    ensures forall j :: i <= j < k ==> cells[j].used
    decreases |cells| - i
  {
    if !cells[i].used then i else NextFree(cells, i + 1)
  }

  // ------------------------------------------------------------ circular linkage

  /** The entry before entry t of a circular list. */
  function Before(list: seq<nat>, t: nat): nat
    requires t < |list|
  {
    if t == 0 then list[|list| - 1] else list[t - 1]
  }

  ghost predicate Ascending(list: seq<nat>) {
    forall t, u :: 0 <= t < u < |list| ==> list[t] < list[u]
  }

  ghost predicate Circular(mem: Memory, list: seq<nat>) {
    && list != []
    && (forall t :: 0 <= t < |list| ==> list[t] in mem)
    && (forall t {:trigger Before(list, t)} :: 0 <= t < |list| ==> mem[Before(list, t)].next == list[t])
  }

  /** mem' is mem, except that entry `prev` now refers to x; entry `gone` is free to
      change, because it leaves the list. */
  ghost predicate Relinked(mem: Memory, mem': Memory, list: seq<nat>, gone: nat, prev: nat, x: nat) {
    forall t :: 0 <= t < |list| && list[t] != gone ==>
      && list[t] in mem && list[t] in mem'
      && mem'[list[t]].next == if list[t] == prev then x else mem[list[t]].next
  }

  lemma RemoveEntry(mem: Memory, list: seq<nat>, t: nat, mem': Memory, list': seq<nat>)
    requires Circular(mem, list) && Ascending(list) && t < |list| == |list'| + 1 && list' != []
    requires forall u :: 0 <= u < t ==> list'[u] == list[u]
    requires forall u :: t <= u < |list'| ==> list'[u] == list[u + 1]
    requires Relinked(mem, mem', list, list[t], Before(list, t), mem[list[t]].next)
    ensures Circular(mem', list')
  {
    var n := |list'|;
    assert mem[Before(list, t)].next == list[t];
    assert mem[list[t]].next == list[if t == n then 0 else t + 1] by {
      var w := if t == n then 0 else t + 1;
      assert mem[Before(list, w)].next == list[w];
    }
    forall u | 0 <= u < n
      ensures list'[u] in mem' && Before(list', u) in mem' && mem'[Before(list', u)].next == list'[u]
    {
      assert list'[n - 1] == if t == n then list[n - 1] else list[n];
      if u < t {
        assert mem[Before(list, u)].next == list[u];
      } else {
        assert list'[u] == list[u + 1];
        assert mem[Before(list, u + 1)].next == list[u + 1];
      }
    }
  }

  lemma ReplaceEntry(mem: Memory, list: seq<nat>, t: nat, x: nat, mem': Memory)
    requires Circular(mem, list) && Ascending(list) && t < |list| && Ascending(list[t := x])
    requires x in mem' && mem'[x].next == if |list| == 1 then x else mem[list[t]].next
    requires Relinked(mem, mem', list, list[t], Before(list, t), x)
    ensures Circular(mem', list[t := x])
  {
    var list' := list[t := x];
    forall u | 0 <= u < |list'|
      ensures list'[u] in mem' && Before(list', u) in mem' && mem'[Before(list', u)].next == list'[u]
    {
      assert mem[Before(list, u)].next == list[u];
    }
  }

  /** list' is list with x inserted at t. */
  ghost predicate InsertedAt(list: seq<nat>, list': seq<nat>, t: nat, x: nat) {
    && t < |list| == |list'| - 1
    && list'[t] == x
    && (forall u :: 0 <= u < t ==> list'[u] == list[u])
    && (forall u :: t <= u < |list| ==> list'[u + 1] == list[u])
  }

  lemma BeforeInserted(list: seq<nat>, list': seq<nat>, t: nat, x: nat, u: nat)
    requires InsertedAt(list, list', t, x) && u < |list'|
    ensures u < t ==> list'[u] == list[u] && Before(list', u) == Before(list, u)
    ensures u == t ==> list'[u] == x && Before(list', u) == Before(list, t)
    ensures u == t + 1 ==> list'[u] == list[t] && Before(list', u) == x
    ensures u > t + 1 ==> list'[u] == list[u - 1] && Before(list', u) == Before(list, u - 1)
  {
    var n := |list|;
    assert list'[n - 1 + 1] == list[n - 1];
    if u > t {
      assert list'[u - 1 + 1] == list[u - 1];
      if u > t + 1 { assert list'[u - 2 + 1] == list[u - 2]; }
    }
  }

  /** Different places of an ascending list have different predecessors. */
  lemma BeforeDiffers(list: seq<nat>, t: nat, u: nat)
    requires Ascending(list) && t < |list| && u < |list| && t != u
    ensures Before(list, t) != Before(list, u)
  {
    var i, j := if t == 0 then |list| - 1 else t - 1, if u == 0 then |list| - 1 else u - 1;
    if i < j { assert list[i] < list[j]; } else { assert list[j] < list[i]; }
  }

  lemma InsertEntry(mem: Memory, list: seq<nat>, t: nat, x: nat, mem': Memory, list': seq<nat>)
    requires Circular(mem, list) && Ascending(list) && x !in list && InsertedAt(list, list', t, x)
    requires x in mem' && mem'[x].next == mem[Before(list, t)].next
    requires Relinked(mem, mem', list, x, Before(list, t), x)
    ensures Circular(mem', list')
  {
    assert mem[Before(list, t)].next == list[t];
    forall u | 0 <= u < |list'|
      ensures list'[u] in mem' && Before(list', u) in mem' && mem'[Before(list', u)].next == list'[u]
    {
      BeforeInserted(list, list', t, x, u);
      if u != t && u != t + 1 {
        var w := if u < t then u else u - 1;
        BeforeDiffers(list, t, w);
        assert mem[Before(list, w)].next == list[w];
      }
    }
  }

  // The same three changes, with the list written as what lies below and above.

  lemma RemoveFrom(mem: Memory, mem': Memory, low: seq<nat>, a: nat, high: seq<nat>)
    requires Circular(mem, low + [a] + high) && Ascending(low + [a] + high) && low + high != []
    requires Relinked(mem, mem', low + [a] + high, a, Before(low + [a] + high, |low|), mem[a].next)
    ensures Circular(mem', low + high)
  {
    RemoveEntry(mem, low + [a] + high, |low|, mem', low + high);
  }

  lemma ReplaceIn(mem: Memory, mem': Memory, low: seq<nat>, a: nat, x: nat, high: seq<nat>)
    requires Circular(mem, low + [a] + high) && Ascending(low + [a] + high) && Ascending(low + [x] + high)
    requires a in mem && x in mem' && mem'[x].next == if low + high == [] then x else mem[a].next
    requires Relinked(mem, mem', low + [a] + high, a, Before(low + [a] + high, |low|), x)
    ensures Circular(mem', low + [x] + high)
  {
    assert (low + [a] + high)[|low| := x] == low + [x] + high;
    ReplaceEntry(mem, low + [a] + high, |low|, x, mem');
  }

  lemma InsertInto(mem: Memory, mem': Memory, low: seq<nat>, x: nat, high: seq<nat>)
    requires Circular(mem, low + high) && Ascending(low + high) && Ascending(low + [x] + high) && high != []
    requires x in mem' && mem'[x].next == mem[Before(low + high, |low|)].next
    requires Relinked(mem, mem', low + high, x, Before(low + high, |low|), x)
    ensures Circular(mem', low + [x] + high)
  {
    var list' := low + [x] + high;
    forall u | 0 <= u < |low + high| ensures (low + high)[u] != x {
      assert (low + high)[u] == if u < |low| then list'[u] else list'[u + 1];
      assert list'[|low|] == x;
    }
    InsertEntry(mem, low + high, |low|, x, mem', low + [x] + high);
  }

  lemma SameLinks(mem: Memory, mem': Memory, list: seq<nat>)
    requires Circular(mem, list)
    requires forall t :: 0 <= t < |list| ==> list[t] in mem' && mem'[list[t]].next == mem[list[t]].next
    ensures Circular(mem', list)
  {
    forall t | 0 <= t < |list| ensures mem'[Before(list, t)].next == list[t] {
      assert mem[Before(list, t)].next == list[t];
    }
  }

  lemma SelfLink(mem: Memory, list: seq<nat>, t: nat)
    requires Circular(mem, list) && Ascending(list) && t < |list|
    ensures mem[list[t]].next == list[t] <==> |list| == 1
    ensures mem[list[t]].next == list[if t == |list| - 1 then 0 else t + 1]
  {
    var u := if t == |list| - 1 then 0 else t + 1;
    assert mem[Before(list, u)].next == list[u];
  }

  // ------------------------------------------------------ memory against the cells

  ghost predicate Sized(mem: Memory, cells: seq<Cell>) {
    forall i :: 0 <= i < |cells| ==> cells[i].addr in mem && mem[cells[i].addr].size == cells[i].size
  }

  /** The cell headers in memory describe these cells. */
  ghost predicate Represents(mem: Memory, tail: nat, cells: seq<Cell>) {
    && |cells| > 0
    && Sized(mem, cells)
    && Circular(mem, FreeList(cells))
    && tail == cells[|cells| - 1].addr
  }

  lemma {:induction false} FreeListIsOfCells(cells: seq<Cell>)
    ensures forall a :: a in FreeList(cells) ==> exists i :: 0 <= i < |cells| && !cells[i].used && cells[i].addr == a
  {
    if cells != [] {
      FreeListIsOfCells(cells[1..]);
      forall a | a in FreeList(cells)
        ensures exists i :: 0 <= i < |cells| && !cells[i].used && cells[i].addr == a
      {
        if a in FreeList(cells[1..]) {
          var i :| 0 <= i < |cells[1..]| && !cells[1..][i].used && cells[1..][i].addr == a;
          assert cells[i + 1].addr == a;
        } else {
          assert cells[0].addr == a;
        }
      }
    }
  }

  lemma FreeListFacts(cells: seq<Cell>, region: nat)
    requires Tiles(cells, POFF, HDR, region)
    ensures Ascending(FreeList(cells))
  {
    AllAscending(cells, POFF, HDR, region);
    FreeListAscending(cells, HDR);
  }

  /** The last free cell is the last cell. */
  lemma TailIsLast(cells: seq<Cell>)
    requires |cells| > 0 && !cells[|cells| - 1].used
    ensures FreeList(cells) != []
    ensures FreeList(cells)[|FreeList(cells)| - 1] == cells[|cells| - 1].addr
  {
    FreeListAt(cells, |cells| - 1);
    assert cells[|cells| - 1 + 1..] == [];
  }

  /** Entry |FreeList(cells[..i])| is the first free cell from i on. */
  lemma NextFreeEntry(cells: seq<Cell>, i: nat)
    requires i < |cells| && !cells[|cells| - 1].used
    ensures var t, k := |FreeList(cells[..i])|, NextFree(cells, i);
      && t < |FreeList(cells)| && FreeList(cells)[t] == cells[k].addr
      && FreeList(cells[..k]) == FreeList(cells[..i])
      && (forall u :: 0 <= u < t ==> FreeList(cells)[u] == FreeList(cells[..i])[u])
  {
    var k := NextFree(cells, i);
    FreeListAllUsed(cells[i..k]);
    assert cells[..k] == cells[..i] + cells[i..k];
    FreeListConcat(cells[..i], cells[i..k]);
    FreeListAt(cells, k);
  }

  /** The entry before that, if any, is the nearest free cell below i. */
  lemma {:induction false} PreviousFreeEntry(cells: seq<Cell>, i: nat) returns (k: nat)
    requires i <= |cells| && FreeList(cells[..i]) != []
    ensures k < i && !cells[k].used && forall j :: k < j < i ==> cells[j].used
    ensures var t := |FreeList(cells[..i])|;
      FreeList(cells[..i])[t - 1] == cells[k].addr
  {
    CutAt(cells, i - 1);
    FreeListConcat(cells[..i - 1], [cells[i - 1]]);
    FreeListOne(cells[i - 1]);
    if !cells[i - 1].used {
      k := i - 1;
    } else {
      k := PreviousFreeEntry(cells, i - 1);
    }
  }

  lemma FreeListUsedThenFree(a: Cell, b: Cell)
    requires a.used && !b.used
    ensures FreeList([a, b]) == [b.addr]
  {
    assert [a, b][1..] == [b];
    FreeListOne(b);
  }

  lemma SplitFreeList(cells: seq<Cell>, need: nat, mincell: nat, k: nat)
    requires k < |cells| && !cells[k].used && cells[k].size > POFF + need + mincell
    ensures FreeList(Take(cells, POFF, need, mincell, k)) ==
      FreeList(cells[..k]) + [cells[k].addr + POFF + need] + FreeList(cells[k + 1..])
  {
    var a := Cell(cells[k].addr, need, true);
    var b := Cell(cells[k].addr + POFF + need, cells[k].size - (need + POFF), false);
    FreeListUsedThenFree(a, b);
    FreeListThree(cells[..k], [a, b], cells[k + 1..]);
  }

  lemma WholeFreeList(cells: seq<Cell>, need: nat, mincell: nat, k: nat)
    requires k < |cells| && !cells[k].used && cells[k].size <= POFF + need + mincell
    ensures FreeList(Take(cells, POFF, need, mincell, k)) == FreeList(cells[..k]) + FreeList(cells[k + 1..])
  {
    var a := cells[k].(used := true);
    FreeListOne(a);
    FreeListThree(cells[..k], [a], cells[k + 1..]);
    assert Take(cells, POFF, need, mincell, k) == cells[..k] + [a] + cells[k + 1..];
    assert FreeList(cells[..k]) + [] == FreeList(cells[..k]);
  }

  lemma ReleasedFreeList(cells: seq<Cell>, k: nat)
    requires k < |cells| && cells[k].used
    ensures FreeList(Release(cells, POFF, k)) ==
      FreeList(cells[..MergeStart(cells, k)]) + [cells[MergeStart(cells, k)].addr]
      + FreeList(cells[MergeEnd(cells, k)..])
  {
    var m, e := MergeStart(cells, k), MergeEnd(cells, k);
    var merged := Cell(cells[m].addr, MergedSize(cells, POFF, k), false);
    FreeListOne(merged);
    FreeListThree(cells[..m], [merged], cells[e..]);
  }

  lemma FreeListBelow(cells: seq<Cell>, k: nat)
    requires k < |cells| && cells[k].used
    ensures FreeList(cells[..k]) ==
      FreeList(cells[..MergeStart(cells, k)]) + if JoinsLeft(cells, k) then [cells[k - 1].addr] else []
  {
    if JoinsLeft(cells, k) {
      assert cells[..k] == cells[..k - 1] + [cells[k - 1]];
      FreeListConcat(cells[..k - 1], [cells[k - 1]]);
      FreeListOne(cells[k - 1]);
    }
  }

  lemma FreeListAbove(cells: seq<Cell>, k: nat)
    requires k < |cells| && cells[k].used
    ensures FreeList(cells[k + 1..]) ==
      (if JoinsRight(cells, k) then [cells[k + 1].addr] else []) + FreeList(cells[MergeEnd(cells, k)..])
  {
    if JoinsRight(cells, k) {
      assert cells[k + 1..] == [cells[k + 1]] + cells[k + 2..];
      FreeListConcat([cells[k + 1]], cells[k + 2..]);
      FreeListOne(cells[k + 1]);
    }
  }

  lemma FreeListAroundUsed(cells: seq<Cell>, k: nat)
    requires k < |cells| && cells[k].used
    ensures FreeList(cells) == FreeList(cells[..k]) + FreeList(cells[k + 1..])
  {
    CutAt(cells, k);
    FreeListOne(cells[k]);
    FreeListThree(cells[..k], [cells[k]], cells[k + 1..]);
  }
}
