/** The suba allocator on a flat region of memory; 0 stands for the null pointer. */
module Suba {
  import opened Blocks
  import opened SubaCells
  import opened SubaList

  /** Cell address c is the entry before the first free cell from i on. */
  ghost predicate IsBefore(cells: seq<Cell>, i: nat, c: nat) {
    && i <= |cells| && |FreeList(cells[..i])| < |FreeList(cells)|
    && c == Before(FreeList(cells), |FreeList(cells[..i])|)
  }

  // --------------------------------------------- effects of the stores on memory

  /** Sizes are unchanged, except that cell c now has size n; `other` is not
      looked at. */
  ghost predicate Resized(mem: Memory, mem': Memory, other: nat, c: nat, n: nat) {
    forall a :: a in mem && a != other ==> a in mem' && mem'[a].size == if a == c then n else mem[a].size
  }

  /** Links are unchanged, except that cell `prev` now refers to x; the links of
      `gone` and `other` are not looked at. */
  ghost predicate LinksKept(mem: Memory, mem': Memory, other: nat, gone: nat, prev: nat, x: nat) {
    forall a :: a in mem && a != other && a != gone ==>
      a in mem' && mem'[a].next == if a == prev then x else mem[a].next
  }

  lemma KeptRelinked(mem: Memory, mem': Memory, list: seq<nat>, other: nat, gone: nat, prev: nat, x: nat)
    requires Circular(mem, list) && LinksKept(mem, mem', other, gone, prev, x) && other !in list
    ensures Relinked(mem, mem', list, gone, prev, x)
  {}

  function SetSize(mem: Memory, a: nat, n: nat): Memory {
    mem[a := Header(n, if a in mem then mem[a].next else 0)]
  }

  function SetNext(mem: Memory, a: nat, x: nat): Memory {
    mem[a := Header(if a in mem then mem[a].size else 0, x)]
  }

  /** The stores of suba_alloc when cell c2, found after c1, is split. */
  function SplitStores(mem: Memory, c1: nat, c2: nat, need: nat): Memory
    requires c1 in mem && c2 in mem && mem[c2].size >= need + POFF
  {
    var c3 := c2 + POFF + need;
    var mem3 := SetSize(mem, c3, mem[c2].size - (need + POFF));
    if c1 == c2 then SetSize(SetNext(mem3, c3, c3), c2, need)
    else
      var mem2 := SetNext(mem3, c3, mem3[c2].next);
      SetSize(SetNext(mem2, c1, c3), c2, need)
  }

  lemma SplitStoresEffect(mem: Memory, c1: nat, c2: nat, need: nat)
    requires c1 in mem && c2 in mem && mem[c2].size >= need + POFF && c1 != c2 + POFF + need
    ensures var mem', c3 := SplitStores(mem, c1, c2, need), c2 + POFF + need;
      && Resized(mem, mem', c3, c2, need) && LinksKept(mem, mem', c3, c2, c1, c3)
      && c2 in mem' && mem'[c2].size == need
      && c3 in mem' && mem'[c3] == Header(mem[c2].size - (need + POFF), if c1 == c2 then c3 else mem[c2].next)
  {}

  // ---------------------------------------------------------------------- split

  lemma BetweenCells(cells: seq<Cell>, region: nat, k: nat, a: nat)
    requires Tiles(cells, POFF, HDR, region) && k < |cells| && cells[k].addr < a < cells[k].End(POFF)
    ensures forall i :: 0 <= i < |cells| ==> cells[i].addr != a
    ensures a !in FreeList(cells)
  {
    AllAscending(cells, POFF, HDR, region);
    FreeListIsOfCells(cells);
  }

  lemma SplitSizes(mem: Memory, mem': Memory, cells: seq<Cell>, need: nat, mincell: nat, k: nat)
    requires Sized(mem, cells) && k < |cells| && cells[k].size > POFF + need + mincell
    requires forall i :: 0 <= i < |cells| && i != k ==> cells[i].addr != cells[k].addr
    requires forall i :: 0 <= i < |cells| ==> cells[i].addr != cells[k].addr + POFF + need
    requires Resized(mem, mem', cells[k].addr + POFF + need, cells[k].addr, need)
    requires var c3 := cells[k].addr + POFF + need; c3 in mem' && mem'[c3].size == cells[k].size - (need + POFF)
    ensures Sized(mem', Take(cells, POFF, need, mincell, k))
  {
    var cells' := Take(cells, POFF, need, mincell, k);
    forall i | 0 <= i < |cells'|
      ensures cells'[i].addr in mem' && mem'[cells'[i].addr].size == cells'[i].size
    {
      if i < k {
        assert cells'[i] == cells[i];
      } else if i > k + 1 {
        assert cells'[i] == cells[i - 1];
      }
    }
  }

  lemma SplitTail(cells: seq<Cell>, region: nat, need: nat, mincell: nat, k: nat)
    requires Tiles(cells, POFF, HDR, region) && k < |cells| && cells[k].size > POFF + need + mincell
    ensures var cells', last := Take(cells, POFF, need, mincell, k), cells[|cells| - 1].addr;
      |cells'| > 0 && cells'[|cells'| - 1].addr == if cells[k].addr == last then cells[k].addr + POFF + need else last
  {
    AllAscending(cells, POFF, HDR, region);
  }

  /** The free list before and after Take, around entry k. */
  lemma TakeLists(cells: seq<Cell>, region: nat, need: nat, mincell: nat, k: nat)
    requires WellFormed(cells, region, mincell) && need % ALIGNMENT == 0 && mincell <= need
    requires k < |cells| && !cells[k].used && need <= cells[k].size && Serves(cells, need, mincell, k)
    ensures var low, high := FreeList(cells[..k]), FreeList(cells[k + 1..]);
      var list, list' := FreeList(cells), FreeList(Take(cells, POFF, need, mincell, k));
      && list == low + [cells[k].addr] + high && Ascending(list)
      && list' == (
           if cells[k].size > POFF + need + mincell then low + [cells[k].addr + POFF + need] + high
           else low + high)
      && list' != [] && Ascending(list')
  {
    FreeListAt(cells, k);
    FreeListFacts(cells, region);
    if cells[k].size > POFF + need + mincell {
      SplitFreeList(cells, need, mincell, k);
    } else {
      WholeFreeList(cells, need, mincell, k);
    }
    TakeKeepsWellFormed(cells, region, need, mincell, k);
    WellFormedFreeList(Take(cells, POFF, need, mincell, k), region, mincell);
  }

  lemma WellFormedFreeList(cells: seq<Cell>, region: nat, mincell: nat)
    requires WellFormed(cells, region, mincell)
    ensures FreeList(cells) != [] && Ascending(FreeList(cells))
  {
    FreeListFacts(cells, region);
    TailIsLast(cells);
  }

  lemma ZeroIsNoCell(cells: seq<Cell>, region: nat)
    requires Tiles(cells, POFF, HDR, region)
    ensures 0 !in FreeList(cells) && forall i :: 0 <= i < |cells| ==> cells[i].addr != 0
  {
    AllAscending(cells, POFF, HDR, region);
    FreeListIsOfCells(cells);
  }

  lemma BeforeItself(list: seq<nat>, t: nat)
    requires Ascending(list) && t < |list|
    ensures Before(list, t) == list[t] <==> |list| == 1
  {}

  lemma SplitLinks(mem: Memory, mem': Memory, low: seq<nat>, c1: nat, c2: nat, c3: nat, high: seq<nat>)
    requires Circular(mem, low + [c2] + high) && Ascending(low + [c2] + high) && Ascending(low + [c3] + high)
    requires c1 == Before(low + [c2] + high, |low|) && c3 !in low + [c2] + high
    requires LinksKept(mem, mem', c3, c2, c1, c3)
    requires c2 in mem && c3 in mem' && mem'[c3].next == if c1 == c2 then c3 else mem[c2].next
    ensures Circular(mem', low + [c3] + high)
  {
    BeforeItself(low + [c2] + high, |low|);
    KeptRelinked(mem, mem', low + [c2] + high, c3, c2, c1, c3);
    ReplaceIn(mem, mem', low, c2, c3, high);
  }

  lemma SplitRepresents(mem: Memory, mem': Memory, tail: nat, tail': nat, cells: seq<Cell>, region: nat,
                        need: nat, mincell: nat, k: nat, c1: nat)
    requires WellFormed(cells, region, mincell) && Represents(mem, tail, cells)
    requires need % ALIGNMENT == 0 && mincell <= need
    requires k < |cells| && !cells[k].used && cells[k].size > POFF + need + mincell && IsBefore(cells, k, c1)
    requires var c2 := cells[k].addr;
      var c3 := c2 + POFF + need;
      && Resized(mem, mem', c3, c2, need) && LinksKept(mem, mem', c3, c2, c1, c3)
      && c3 in mem' && mem'[c3] == Header(mem[c2].size - (need + POFF), if c1 == c2 then c3 else mem[c2].next)
      && tail' == if c2 == tail then c3 else tail
    ensures Represents(mem', tail', Take(cells, POFF, need, mincell, k))
  {
    var c2 := cells[k].addr;
    BetweenCells(cells, region, k, c2 + POFF + need);
    assert Circular(mem', FreeList(Take(cells, POFF, need, mincell, k))) by {
      TakeLists(cells, region, need, mincell, k);
      SplitLinks(mem, mem', FreeList(cells[..k]), c1, c2, c2 + POFF + need, FreeList(cells[k + 1..]));
    }
    AddrsDiffer(cells, POFF, HDR, region, k);
    SplitSizes(mem, mem', cells, need, mincell, k);
    SplitTail(cells, region, need, mincell, k);
  }

  lemma SplitCorrect(mem: Memory, mem': Memory, tail: nat, tail': nat, cells: seq<Cell>, cells': seq<Cell>,
                     region: nat, need: nat, mincell: nat, k: nat, c1: nat)
    requires WellFormed(cells, region, mincell) && Represents(mem, tail, cells)
    requires need % ALIGNMENT == 0 && mincell <= need
    requires k < |cells| && !cells[k].used && cells[k].size > POFF + need + mincell && IsBefore(cells, k, c1)
    requires c1 in mem && cells[k].addr in mem && mem[cells[k].addr].size >= need + POFF
    requires c1 != cells[k].addr + POFF + need
    requires cells' == Take(cells, POFF, need, mincell, k) && mem' == SplitStores(mem, c1, cells[k].addr, need)
    requires tail' == if cells[k].addr == tail then cells[k].addr + POFF + need else tail
    ensures Represents(mem', tail', cells') && WellFormed(cells', region, mincell)
    ensures UsedBytes(cells', POFF) == UsedBytes(cells, POFF) + POFF + cells'[k].size
  {
    SplitStoresEffect(mem, c1, cells[k].addr, need);
    SplitRepresents(mem, mem', tail, tail', cells, region, need, mincell, k, c1);
    TakeKeepsWellFormed(cells, region, need, mincell, k);
    TakeUsedBytes(cells, POFF, need, mincell, k);
  }

  lemma WholeRepresents(mem: Memory, mem': Memory, tail: nat, cells: seq<Cell>, region: nat,
                        need: nat, mincell: nat, k: nat, c1: nat)
    requires WellFormed(cells, region, mincell) && Represents(mem, tail, cells)
    requires k < |cells| - 1 && need % ALIGNMENT == 0 && mincell <= need <= cells[k].size
    requires !cells[k].used && cells[k].size <= POFF + need + mincell && IsBefore(cells, k, c1)
    requires var c2 := cells[k].addr;
      c2 in mem && Resized(mem, mem', 0, c2, cells[k].size) && LinksKept(mem, mem', 0, c2, c1, mem[c2].next)
    ensures Represents(mem', tail, Take(cells, POFF, need, mincell, k))
  {
    var low, high, c2 := FreeList(cells[..k]), FreeList(cells[k + 1..]), cells[k].addr;
    assert Circular(mem', FreeList(Take(cells, POFF, need, mincell, k))) by {
      TakeLists(cells, region, need, mincell, k);
      ZeroIsNoCell(cells, region);
      KeptRelinked(mem, mem', FreeList(cells), 0, c2, c1, mem[c2].next);
      RemoveFrom(mem, mem', low, c2, high);
    }
    ZeroIsNoCell(cells, region);
    WholeSizes(mem, mem', cells, need, mincell, k);
  }

  lemma WholeSizes(mem: Memory, mem': Memory, cells: seq<Cell>, need: nat, mincell: nat, k: nat)
    requires Sized(mem, cells) && k < |cells| - 1 && cells[k].size <= POFF + need + mincell
    requires forall i :: 0 <= i < |cells| ==> cells[i].addr != 0
    requires Resized(mem, mem', 0, cells[k].addr, cells[k].size)
    ensures var cells' := Take(cells, POFF, need, mincell, k);
      Sized(mem', cells') && |cells'| == |cells| && cells'[|cells| - 1] == cells[|cells| - 1]
  {}

  // -------------------------------------------------------------------- release

  lemma ReleaseSizes(mem: Memory, mem': Memory, cells: seq<Cell>, region: nat, k: nat)
    requires Tiles(cells, POFF, HDR, region) && Sized(mem, cells) && k < |cells|
    requires Resized(mem, mem', 0, cells[MergeStart(cells, k)].addr, MergedSize(cells, POFF, k))
    ensures Sized(mem', Release(cells, POFF, k))
  {
    AllAscending(cells, POFF, HDR, region);
    ReleaseElements(cells, POFF, k);
    var cells', m, e := Release(cells, POFF, k), MergeStart(cells, k), MergeEnd(cells, k);
    forall i | 0 <= i < |cells'|
      ensures cells'[i].addr in mem' && mem'[cells'[i].addr].size == cells'[i].size
    {
      if i < m {
        assert cells'[i] == cells[i];
      } else if i > m {
        assert cells'[i] == cells[i + (e - m) - 1];
      }
    }
  }

  /** The free list, split at used cell k. */
  lemma ListsAround(cells: seq<Cell>, region: nat, k: nat)
    requires Tiles(cells, POFF, HDR, region) && k < |cells| && cells[k].used && !cells[|cells| - 1].used
    ensures var low, high := FreeList(cells[..k]), FreeList(cells[k + 1..]);
      FreeList(cells) == low + high && high != [] && Ascending(low + high)
  {
    FreeListAroundUsed(cells, k);
    FreeListFacts(cells, region);
    LastOfRest(cells, k + 1);
    TailIsLast(cells[k + 1..]);
  }

  lemma LastOfRest(cells: seq<Cell>, i: nat)
    requires i < |cells|
    ensures cells[i..] != [] && cells[i..][|cells[i..]| - 1] == cells[|cells| - 1]
  {}

  /** The free list after Release, in terms of its parts below and above before. */
  lemma ReleaseLists(cells: seq<Cell>, k: nat)
    requires k < |cells| && cells[k].used
    ensures var low, high := FreeList(cells[..k]), FreeList(cells[k + 1..]);
      && (JoinsLeft(cells, k) ==> low != [])
      && (JoinsRight(cells, k) ==> high != [])
      && var kept := if JoinsRight(cells, k) then high[1..] else high;
         FreeList(Release(cells, POFF, k)) == if JoinsLeft(cells, k) then low + kept else low + [cells[k].addr] + kept
  {
    FreeListBelow(cells, k);
    FreeListAbove(cells, k);
    ReleasedFreeList(cells, k);
    SpliceShape(FreeList(cells[..MergeStart(cells, k)]),
                JoinsLeft(cells, k), cells[MergeStart(cells, k)].addr, cells[k].addr,
                JoinsRight(cells, k), cells[MergeEnd(cells, k) - 1].addr, FreeList(cells[MergeEnd(cells, k)..]));
  }

  lemma SpliceShape(below: seq<nat>, left: bool, x: nat, c2: nat, right: bool, y: nat, above: seq<nat>)
    ensures var low, high := below + (if left then [x] else []), (if right then [y] else []) + above;
      var kept := if right then high[1..] else high;
      && (left ==> low != [])
      && below + [if left then x else c2] + above == if left then low + kept else low + [c2] + kept
  {}

  lemma ReleasedAscending(cells: seq<Cell>, region: nat, mincell: nat, k: nat)
    requires WellFormed(cells, region, mincell) && k < |cells| && cells[k].used
    ensures Ascending(FreeList(Release(cells, POFF, k)))
  {
    ReleaseKeepsTiling(cells, POFF, HDR, region, k);
    FreeListFacts(Release(cells, POFF, k), region);
  }

  lemma ReleaseTail(cells: seq<Cell>, region: nat, k: nat)
    requires Tiles(cells, POFF, HDR, region) && k < |cells| - 1
    ensures var cells', last := Release(cells, POFF, k), cells[|cells| - 1].addr;
      |cells'| > 0 && cells'[|cells'| - 1].addr ==
        if JoinsRight(cells, k) && cells[k + 1].addr == last then cells[MergeStart(cells, k)].addr else last
  {
    AllAscending(cells, POFF, HDR, region);
    ReleaseElements(cells, POFF, k);
  }

  /** Below entry |low| of the free list lie the cells before k, from it on those after. */
  lemma ReleaseNeighbours(cells: seq<Cell>, region: nat, k: nat)
    requires Tiles(cells, POFF, HDR, region) && k < |cells| - 1 && cells[k].used && !cells[|cells| - 1].used
    ensures var low, high := FreeList(cells[..k]), FreeList(cells[k + 1..]);
      && (forall a :: a in low ==> a < cells[k].addr)
      && (forall a :: a in high ==> cells[k].addr < a)
  {
    AllAscending(cells, POFF, HDR, region);
    FreeListIsOfCells(cells[..k]);
    FreeListIsOfCells(cells[k + 1..]);
  }

  lemma EndsAt(cells: seq<Cell>, region: nat, i: nat, k: nat)
    requires Tiles(cells, POFF, HDR, region) && i < |cells| && k < |cells|
    ensures cells[i].End(POFF) == cells[k].addr <==> i + 1 == k
  {
    AllAscending(cells, POFF, HDR, region);
    if i + 1 < k { assert cells[i + 1].End(POFF) <= cells[k].addr; }
  }

  /** The free cell before the released one ends where that starts exactly if the
      two are joined. */
  lemma LeftAdjacency(cells: seq<Cell>, region: nat, k: nat) returns (i: nat)
    requires Tiles(cells, POFF, HDR, region) && k < |cells| - 1 && cells[k].used && !cells[|cells| - 1].used
    ensures FreeList(cells) != [] && |FreeList(cells[..k])| < |FreeList(cells)|
    ensures i < |cells| && !cells[i].used
    ensures Before(FreeList(cells), |FreeList(cells[..k])|) == cells[i].addr
    ensures cells[i].End(POFF) == cells[k].addr <==> JoinsLeft(cells, k)
    ensures JoinsLeft(cells, k) ==> i == k - 1
  {
    var low := FreeList(cells[..k]);
    FreeListAroundUsed(cells, k);
    TailIsLast(cells[k + 1..]);
    FreeListBelow(cells, k);
    if low == [] {
      TailIsLast(cells);
      i := |cells| - 1;
    } else {
      i := PreviousFreeEntry(cells, k);
    }
    EndsAt(cells, region, i, k);
  }

  /** The released cell ends where the next free cell starts exactly if the two are
      joined. */
  lemma RightAdjacency(cells: seq<Cell>, region: nat, k: nat) returns (j: nat)
    requires Tiles(cells, POFF, HDR, region) && k < |cells| - 1 && cells[k].used && !cells[|cells| - 1].used
    ensures k < j < |cells| && !cells[j].used
    ensures FreeList(cells[k + 1..]) != [] && FreeList(cells[k + 1..])[0] == cells[j].addr
    ensures cells[k].End(POFF) == cells[j].addr <==> JoinsRight(cells, k)
    ensures JoinsRight(cells, k) ==> j == k + 1
  {
    NextFreeEntry(cells[k + 1..], 0);
    j := k + 1 + NextFree(cells[k + 1..], 0);
    assert cells[k + 1..][..0] == [];
    EndsAt(cells, region, k, j);
    if JoinsRight(cells, k) { assert !cells[k + 1..][0].used; }
  }

  /** The four ways in which suba_free changes the links: c1 is the free cell before
      the released cell c2 on the circular list, c3 the one after it. */
  ghost predicate Spliced(mem: Memory, mem': Memory, left: bool, right: bool, c1: nat, c2: nat, c3: nat)
    requires c1 in mem && c3 in mem
  {
    if left && right then LinksKept(mem, mem', c2, c3, c1, mem[c3].next)
    else if left then LinksKept(mem, mem', c2, c2, c1, mem[c1].next)
    else
      && LinksKept(mem, mem', c2, if right then c3 else c2, c1, c2)
      && c2 in mem' && mem'[c2].next == if right && mem[c3].next == c3 then c2 else mem[if right then c3 else c1].next
  }

  lemma SpliceLinks(mem: Memory, mem': Memory, cells: seq<Cell>, region: nat, mincell: nat, k: nat, c1: nat, c3: nat)
    requires WellFormed(cells, region, mincell) && k < |cells| && cells[k].used
    requires Circular(mem, FreeList(cells)) && IsBefore(cells, k, c1)
    requires c1 in mem && c3 in mem && FreeList(cells[k + 1..]) != [] && c3 == FreeList(cells[k + 1..])[0]
    requires Spliced(mem, mem', JoinsLeft(cells, k), JoinsRight(cells, k), c1, cells[k].addr, c3)
    ensures Circular(mem', FreeList(Release(cells, POFF, k)))
  {
    var low, high, c2 := FreeList(cells[..k]), FreeList(cells[k + 1..]), cells[k].addr;
    ListsAround(cells, region, k);
    ReleaseLists(cells, k);
    ReleasedAscending(cells, region, mincell, k);
    ReleaseNeighbours(cells, region, k);
    SpliceLists(mem, mem', low, high, JoinsLeft(cells, k), JoinsRight(cells, k), c1, c2);
  }

  lemma SpliceLists(mem: Memory, mem': Memory, low: seq<nat>, high: seq<nat>, left: bool, right: bool, c1: nat, c2: nat)
    requires high != [] && Circular(mem, low + high) && Ascending(low + high)
    requires c1 == Before(low + high, |low|) && c1 in mem && high[0] in mem && c2 !in low + high
    requires Spliced(mem, mem', left, right, c1, c2, high[0])
    requires var kept := if right then high[1..] else high;
      if left then low != [] else Ascending(low + [c2] + kept)
    ensures var kept := if right then high[1..] else high;
      Circular(mem', if left then low + kept else low + [c2] + kept)
  {
    var list, c3 := low + high, high[0];
    assert list == low + [c3] + high[1..];
    assert mem[c1].next == list[|low|];
    if left && right {
      KeptRelinked(mem, mem', list, c2, c3, c1, mem[c3].next);
      RemoveFrom(mem, mem', low, c3, high[1..]);
    } else if left {
      SameLinks(mem, mem', list);
    } else if right {
      SelfLink(mem, list, |low|);
      KeptRelinked(mem, mem', list, c2, c3, c1, c2);
      ReplaceIn(mem, mem', low, c3, c2, high[1..]);
    } else {
      KeptRelinked(mem, mem', list, c2, c2, c1, c2);
      InsertInto(mem, mem', low, c2, high);
    }
  }

  lemma SpliceRepresents(mem: Memory, mem': Memory, tail: nat, tail': nat, cells: seq<Cell>, region: nat,
                         mincell: nat, k: nat, c1: nat, c3: nat)
    requires WellFormed(cells, region, mincell) && Represents(mem, tail, cells)
    requires k < |cells| && cells[k].used && IsBefore(cells, k, c1)
    requires c1 in mem && c3 in mem && c3 == mem[c1].next
    requires Spliced(mem, mem', JoinsLeft(cells, k), JoinsRight(cells, k), c1, cells[k].addr, c3)
    requires Resized(mem, mem', 0, cells[MergeStart(cells, k)].addr, MergedSize(cells, POFF, k))
    requires tail' == if JoinsRight(cells, k) && c3 == tail then cells[MergeStart(cells, k)].addr else tail
    ensures Represents(mem', tail', Release(cells, POFF, k))
  {
    var j := RightAdjacency(cells, region, k);
    SpliceFacts(mem, tail, cells, region, mincell, k, c1);
    SpliceLinks(mem, mem', cells, region, mincell, k, c1, c3);
    ReleaseSizes(mem, mem', cells, region, k);
    ReleaseTail(cells, region, k);
  }

  /** Where the neighbours of the released cell lie, and when they touch it. */
  lemma SpliceFacts(mem: Memory, tail: nat, cells: seq<Cell>, region: nat, mincell: nat, k: nat, c1: nat)
    requires WellFormed(cells, region, mincell) && Represents(mem, tail, cells)
    requires k < |cells| && cells[k].used && IsBefore(cells, k, c1)
    ensures FreeList(cells[k + 1..]) != [] && c1 in mem && cells[k].addr in mem
    ensures mem[cells[k].addr].size == cells[k].size
    ensures c1 != cells[k].addr && mem[c1].next != cells[k].addr
    ensures mem[c1].next == FreeList(cells[k + 1..])[0] && mem[c1].next in mem
    ensures c1 + POFF + mem[c1].size == cells[k].addr <==> JoinsLeft(cells, k)
    ensures cells[k].addr + POFF + cells[k].size == mem[c1].next <==> JoinsRight(cells, k)
    ensures JoinsLeft(cells, k) ==> c1 == cells[k - 1].addr && mem[c1].size == cells[k - 1].size
    ensures JoinsRight(cells, k) ==> mem[c1].next == cells[k + 1].addr && mem[mem[c1].next].size == cells[k + 1].size
    ensures JoinsLeft(cells, k) ==> c1 != mem[c1].next
  {
    var i := LeftAdjacency(cells, region, k);
    var j := RightAdjacency(cells, region, k);
    AddrsDiffer(cells, POFF, HDR, region, k);
    FreeListAroundUsed(cells, k);
    assert mem[c1].next == FreeList(cells)[|FreeList(cells[..k])|];
    if JoinsLeft(cells, k) { AddrsDiffer(cells, POFF, HDR, region, i); }
  }

  /** A used cell lies in the region below the tail, is found by its address, and
      has its size in memory. */
  lemma LiveFacts(mem: Memory, tail: nat, cells: seq<Cell>, region: nat, mincell: nat, k: nat)
    requires WellFormed(cells, region, mincell) && Represents(mem, tail, cells)
    requires k < |cells| && cells[k].used
    ensures 0 < cells[k].addr < tail && cells[k].addr + POFF < region
    ensures cells[k].addr in mem && mem[cells[k].addr].size == cells[k].size <= region
    ensures Find(cells, cells[k].addr) == k
  {
    AllAscending(cells, POFF, HDR, region);
    FindUnique(cells, POFF, HDR, region, k);
  }

  lemma InsertionFacts(cells: seq<Cell>, region: nat, mincell: nat, k: nat)
    requires WellFormed(cells, region, mincell) && k < |cells| && cells[k].used
    ensures var list, t := FreeList(cells), |FreeList(cells[..k])|;
      && t < |list| && (forall u :: 0 <= u < t ==> list[u] < cells[k].addr)
      && cells[k].addr < list[t]
      && list[|list| - 1] == cells[|cells| - 1].addr
  {
    FreeListAroundUsed(cells, k);
    TailIsLast(cells);
    TailIsLast(cells[k + 1..]);
    ReleaseNeighbours(cells, region, k);
    var low, high := FreeList(cells[..k]), FreeList(cells[k + 1..]);
    assert forall u :: 0 <= u < |low| ==> (low + high)[u] in low;
    assert (low + high)[|low|] == high[0] && high[0] in high;
  }

  /** The stores of suba_free's splice of c2 between c1 and c3. */
  function SpliceStores(mem: Memory, c1: nat, c2: nat, c3: nat, j1: bool, j2: bool): Memory
    requires c1 in mem && c2 in mem && c3 in mem
  {
    if j1 && j2 then
      mem[c1 := Header(mem[c1].size + POFF + mem[c3].size + POFF + mem[c2].size, mem[c3].next)]
    else if j1 then
      mem[c1 := Header(mem[c1].size + POFF + mem[c2].size, mem[c1].next)]
    else
      var next := if mem[c3].next == c3 then c2 else mem[c3].next;
      var h := if j2 then Header(mem[c2].size + POFF + mem[c3].size, next) else Header(mem[c2].size, mem[c1].next);
      var m := mem[c2 := h];
      m[c1 := Header(mem[c1].size, c2)]
  }

  lemma SpliceStoresEffect(mem: Memory, c1: nat, c2: nat, c3: nat, j1: bool, j2: bool)
    requires c1 in mem && c2 in mem && c3 in mem && c1 != c2 && c2 != c3 && (j1 ==> c1 != c3)
    requires mem[c1].next == c3
    ensures var mem' := SpliceStores(mem, c1, c2, c3, j1, j2);
      && Spliced(mem, mem', j1, j2, c1, c2, c3)
      && Resized(mem, mem', 0, if j1 then c1 else c2,
                 mem[c2].size + (if j1 then mem[c1].size + POFF else 0) + (if j2 then mem[c3].size + POFF else 0))
  {}

  lemma SpliceCorrect(mem: Memory, mem': Memory, tail: nat, tail': nat, cells: seq<Cell>, cells': seq<Cell>,
                      region: nat, mincell: nat, k: nat, c1: nat)
    requires WellFormed(cells, region, mincell) && Represents(mem, tail, cells)
    requires k < |cells| && cells[k].used && IsBefore(cells, k, c1) && cells' == Release(cells, POFF, k)
    requires c1 in mem && mem[c1].next in mem && cells[k].addr in mem
    requires var c2, c3 := cells[k].addr, mem[c1].next;
      var j1, j2 := c1 + POFF + mem[c1].size == c2, c2 + POFF + mem[c2].size == c3;
      && mem' == SpliceStores(mem, c1, c2, c3, j1, j2)
      && tail' == if j2 && c3 == tail then if j1 then c1 else c2 else tail
    ensures Represents(mem', tail', cells') && WellFormed(cells', region, mincell)
    ensures UsedBytes(cells', POFF) + POFF + cells[k].size == UsedBytes(cells, POFF)
  {
    SpliceFacts(mem, tail, cells, region, mincell, k, c1);
    var c2, c3 := cells[k].addr, mem[c1].next;
    SpliceStoresEffect(mem, c1, c2, c3, JoinsLeft(cells, k), JoinsRight(cells, k));
    SpliceRepresents(mem, mem', tail, tail', cells, region, mincell, k, c1, c3);
    ReleaseKeepsWellFormed(cells, region, mincell, k);
    ReleaseUsedBytes(cells, POFF, k);
  }

  // ------------------------------------------------------- where the stores lie

  /** A header with its link, stored at o, lies in a free cell, or in cell k. */
  ghost predicate InFree(cells: seq<Cell>, k: int, o: nat) {
    exists j :: 0 <= j < |cells| && (!cells[j].used || j == k)
      && cells[j].addr <= o && o + POFF + LINK <= cells[j].End(POFF)
  }

  /** All stores were of headers in free cells, or in cell k. */
  ghost predicate StoresInFree(mem: Memory, mem': Memory, cells: seq<Cell>, k: int) {
    forall o :: o in mem' && (o !in mem || mem'[o] != mem[o]) ==> InFree(cells, k, o)
  }

  /** So no store touches a cell in use, neither its header nor its data. */
  lemma StoresSpareUsed(mem: Memory, mem': Memory, cells: seq<Cell>, region: nat, mincell: nat, k: int, i: nat, o: nat)
    requires WellFormed(cells, region, mincell) && StoresInFree(mem, mem', cells, k)
    requires i < |cells| && cells[i].used && i != k && o in mem' && (o !in mem || mem'[o] != mem[o])
    ensures o + POFF + LINK <= cells[i].addr || cells[i].End(POFF) <= o
  {
    assert InFree(cells, k, o);
    var j :| 0 <= j < |cells| && (!cells[j].used || j == k)
      && cells[j].addr <= o && o + POFF + LINK <= cells[j].End(POFF);
    if i < j {
      CellsAscend(cells, POFF, HDR, region, i, j);
    } else {
      CellsAscend(cells, POFF, HDR, region, j, i);
    }
  }

  /** If one cell has the minimal size all have, so that the header at the beginning of a cell
      lies in it with its link. */
  lemma BeginsInFree(cells: seq<Cell>, region: nat, mincell: nat, f: nat, k: int, i: nat)
    requires WellFormed(cells, region, mincell) && f < |cells| && cells[f].size >= mincell
    requires i < |cells| && (!cells[i].used || i == k)
    ensures InFree(cells, k, cells[i].addr)
  {
    CellInRegion(cells, region, mincell, f);
    CellInRegion(cells, region, mincell, i);
  }

  lemma ListedInFree(cells: seq<Cell>, region: nat, mincell: nat, f: nat, k: int, i: nat, c: nat)
    requires WellFormed(cells, region, mincell) && f < |cells| && cells[f].size >= mincell && IsBefore(cells, i, c)
    ensures InFree(cells, k, c)
  {
    FreeListIsOfCells(cells);
    assert c in FreeList(cells);
    var j :| 0 <= j < |cells| && !cells[j].used && cells[j].addr == c;
    BeginsInFree(cells, region, mincell, f, k, j);
  }

  lemma SplitInFree(mem: Memory, cells: seq<Cell>, region: nat, mincell: nat, need: nat, k: nat, c1: nat)
    requires WellFormed(cells, region, mincell) && k < |cells| && !cells[k].used && mincell <= need
    requires cells[k].size > POFF + need + mincell && IsBefore(cells, k, c1)
    requires c1 in mem && cells[k].addr in mem && mem[cells[k].addr].size >= need + POFF
    ensures StoresInFree(mem, SplitStores(mem, c1, cells[k].addr, need), cells, -1)
  {
    BeginsInFree(cells, region, mincell, k, -1, k);
    ListedInFree(cells, region, mincell, k, -1, k, c1);
    var c3 := cells[k].addr + POFF + need;
    assert InFree(cells, -1, c3) by {
      assert cells[k].addr <= c3 && c3 + POFF + LINK <= cells[k].End(POFF);
    }
  }

  lemma SpliceInFree(mem: Memory, cells: seq<Cell>, region: nat, mincell: nat, k: nat, c1: nat, j1: bool, j2: bool)
    requires WellFormed(cells, region, mincell) && k < |cells| && cells[k].used && IsBefore(cells, k, c1)
    requires c1 in mem && cells[k].addr in mem && mem[c1].next in mem
    ensures StoresInFree(mem, SpliceStores(mem, c1, cells[k].addr, mem[c1].next, j1, j2), cells, k)
  {
    assert CellOk(cells[k], Least(region, mincell), mincell);
    BeginsInFree(cells, region, mincell, k, k, k);
    ListedInFree(cells, region, mincell, k, k, k, c1);
  }

  // ------------------------------------------------------------------- the heap

  class Heap {
    const size: nat
    const mincell: nat
    var mem: Memory
    var tail: nat
    var allocTotal: nat
    var freeTotal: nat
    var sizeTotal: nat
    var maxFree: nat

    /** All cells in address order. */
    ghost var cells: seq<Cell>

    ghost predicate Valid()
      reads this
    {
      && HDR + POFF < size
      && WellFormed(cells, size, mincell)
      && Represents(mem, tail, cells)
      && maxFree == size
      && allocTotal == freeTotal + UsedBytes(cells, POFF)
    }

    constructor (size: nat, mincell: nat)
      requires HDR + POFF < size && mincell % ALIGNMENT == 0 && mincell > 0
      ensures Valid() && this.size == size && this.mincell == mincell
      ensures cells == [Cell(HDR, size - (HDR + POFF), false)]
      ensures allocTotal == freeTotal == sizeTotal == 0
    {
      this.size, this.mincell, maxFree := size, mincell, size;
      tail := HDR;
      mem := map[HDR := Header(size - (HDR + POFF), HDR)];
      allocTotal, freeTotal, sizeTotal := 0, 0, 0;
      cells := [Cell(HDR, size - (HDR + POFF), false)];
      new;
      FreeListOne(cells[0]);
    }

    /** suba_init of the region at `base`, with a reset or to attach to the heap that is there: null
        for the null address, for a region without room for a cell, or if there is no heap.  What
        it accepts can be too small for the link of the first cell (`LinksFit`). */
    static method Init(base: nat, size: nat, rst: bool, mincell: nat, there: Heap?) returns (h: Heap?)
      ensures h == null <==> base == 0 || size <= HDR + POFF || (!rst && there == null)
      ensures h != null && !rst ==> h == there
      ensures h != null && rst ==>
        && fresh(h) && h.Valid() && h.size == size && h.cells == [Cell(HDR, size - (HDR + POFF), false)]
        && h.mincell == if mincell > 8 then AlignUp(mincell) else 8
    {
      if base == 0 || size <= HDR + POFF || (!rst && there == null) { return null; }
      if !rst { return there; }
      h := new Heap(size, if mincell > 8 then AlignUp(mincell) else 8);
    }

    /** suba_addr and suba_ref: 0 unless the reference lies in the region. */
    function Checked(ref: int): nat {
      if 0 < ref <= size then ref else 0
    }

    ghost predicate Live(p: int)
      reads this
    {
      exists i :: 0 <= i < |cells| && cells[i].used && p == cells[i].addr + POFF
    }

    method Alloc(n: nat) returns (p: nat)
      requires Valid()
      modifies this
      ensures Valid()
      ensures freeTotal == old(freeTotal)
      ensures var need, k := Need(n, mincell), FirstFit(old(cells), Need(n, mincell), 0);
        if Serves(old(cells), need, mincell, k) then
          && p == old(cells)[k].addr + POFF
          && cells == Take(old(cells), POFF, need, mincell, k)
          && allocTotal == old(allocTotal) + POFF + cells[k].size && sizeTotal == old(sizeTotal) + n
        else
          && p == 0 && cells == old(cells) && mem == old(mem)
          && allocTotal == old(allocTotal) && sizeTotal == old(sizeTotal)
      ensures StoresInFree(old(mem), mem, old(cells), -1)
    {
      var need := Need(n, mincell);
      var found, c1, c2;
      ghost var k;
      found, c1, c2, k := Scan(need);
      if !found { return 0; }
      var served := Serve(c1, c2, need, k);
      if !served { return 0; }
      allocTotal := allocTotal + POFF + mem[c2].size;
      sizeTotal := sizeTotal + n;
      p := c2 + POFF;
    }

    /** The cell found is split, or used whole unless it is the last. */
    method Serve(c1: nat, c2: nat, need: nat, ghost k: nat) returns (served: bool)
      requires Valid() && need % ALIGNMENT == 0 && mincell <= need
      requires k < |cells| && !cells[k].used && need <= cells[k].size
      requires IsBefore(cells, k, c1) && c2 == cells[k].addr
      modifies this`mem, this`tail, this`cells
      ensures served <==> Serves(old(cells), need, mincell, k)
      ensures if served then cells == Take(old(cells), POFF, need, mincell, k)
              else cells == old(cells) && mem == old(mem) && tail == old(tail)
      ensures served ==> k < |cells| && c2 == cells[k].addr && c2 in mem && mem[c2].size == cells[k].size
      ensures WellFormed(cells, size, mincell) && Represents(mem, tail, cells)
      ensures served ==> UsedBytes(cells, POFF) == UsedBytes(old(cells), POFF) + POFF + cells[k].size
      ensures StoresInFree(old(mem), mem, old(cells), -1)
    {
      ScanFacts(mem, tail, cells, size, k, c1);
      served := true;
      if mem[c2].size > POFF + need + mincell {
        SplitCell(c1, c2, need, k);
      } else if mem[c1].next == tail {
        served := false;
      } else {
        UseWhole(c1, c2, need, k);
      }
    }

    method Free(p: int) returns (ret: int)
      requires Valid() && (p <= 0 || size < p || Live(p))
      modifies this
      ensures Valid()
      ensures allocTotal == old(allocTotal)
      ensures old(Live(p)) ==>
        var k := Find(old(cells), p - POFF);
        && ret == 0 && k < |old(cells)| && old(cells)[k].used
        && cells == Release(old(cells), POFF, k)
        && freeTotal == old(freeTotal) + POFF + old(cells)[k].size
        && StoresInFree(old(mem), mem, old(cells), k)
      ensures !old(Live(p)) ==>
        && ret == (if p == 0 then 0 else -1)
        && cells == old(cells) && mem == old(mem) && freeTotal == old(freeTotal)
    {
      if p == 0 { return 0; }
      if Checked(p) == 0 {
        NotLiveOutside(p);
        return -1;
      }
      ghost var k :| 0 <= k < |cells| && cells[k].used && p == cells[k].addr + POFF;
      LiveFacts(mem, tail, cells, size, mincell, k);
      var c2 := p - POFF;
      if mem[c2].size > maxFree || Checked(c2) == 0 { assert false; }
      FreeCell(c2, k);
      ret := 0;
    }

    /** suba_free after its checks. */
    method FreeCell(c2: nat, ghost k: nat)
      requires Valid() && k < |cells| && cells[k].used && cells[k].addr == c2
      modifies this
      ensures Valid() && allocTotal == old(allocTotal)
      ensures cells == Release(old(cells), POFF, k) && freeTotal == old(freeTotal) + POFF + old(cells)[k].size
      ensures StoresInFree(old(mem), mem, old(cells), k)
    {
      LiveFacts(mem, tail, cells, size, mincell, k);
      freeTotal := freeTotal + POFF + mem[c2].size;
      // the last cell is free, so the cell is never appended after the tail
      if c2 > tail { assert false; }
      var c1 := InsertionPoint(c2, k);
      Splice(c1, c2, k);
    }

    /** The branch of suba_alloc that splits cell c2. */
    method SplitCell(c1: nat, c2: nat, need: nat, ghost k: nat)
      requires Valid() && need % ALIGNMENT == 0 && mincell <= need
      requires k < |cells| && !cells[k].used && cells[k].size > POFF + need + mincell
      requires IsBefore(cells, k, c1) && c2 == cells[k].addr
      modifies this`mem, this`tail, this`cells
      ensures cells == Take(old(cells), POFF, need, mincell, k)
      ensures WellFormed(cells, size, mincell) && Represents(mem, tail, cells)
      ensures UsedBytes(cells, POFF) == UsedBytes(old(cells), POFF) + POFF + cells[k].size
      ensures StoresInFree(old(mem), mem, old(cells), -1)
    {
      ghost var mem0, tail0, cells0 := mem, tail, cells;
      ScanFacts(mem, tail, cells, size, k, c1);
      SplitInFree(mem, cells, size, mincell, need, k, c1);
      StoreSplit(c1, c2, need);
      cells := Take(cells0, POFF, need, mincell, k);
      SplitCorrect(mem0, mem, tail0, tail, cells0, cells, size, need, mincell, k, c1);
    }

    /** The stores of suba_alloc when it splits c2. */
    method StoreSplit(c1: nat, c2: nat, need: nat)
      requires c1 in mem && c2 in mem && mem[c2].size >= need + POFF && c1 != c2 + POFF + need
      modifies this`mem, this`tail
      ensures mem == SplitStores(old(mem), c1, c2, need)
      ensures tail == if c2 == old(tail) then c2 + POFF + need else old(tail)
    {
      var c3 := c2 + POFF + need;
      var before := c1;
      mem := SetSize(mem, c3, mem[c2].size - (need + POFF));
      if c1 == c2 {
        before := c3;
      } else {
        mem := SetNext(mem, c3, mem[c2].next);
      }
      mem := SetNext(mem, before, c3);
      mem := SetSize(mem, c2, need);
      if c2 == tail { tail := c3; }
    }

    /** The branch of suba_alloc that uses the entire cell c2. */
    method UseWhole(c1: nat, c2: nat, need: nat, ghost k: nat)
      requires Valid() && need % ALIGNMENT == 0 && mincell <= need
      requires k < |cells| - 1 && !cells[k].used && need <= cells[k].size <= POFF + need + mincell
      requires IsBefore(cells, k, c1) && c2 == cells[k].addr
      modifies this`mem, this`cells
      ensures cells == Take(old(cells), POFF, need, mincell, k)
      ensures WellFormed(cells, size, mincell) && Represents(mem, tail, cells)
      ensures UsedBytes(cells, POFF) == UsedBytes(old(cells), POFF) + POFF + cells[k].size
      ensures StoresInFree(old(mem), mem, old(cells), -1)
    {
      ghost var mem0 := mem;
      ScanFacts(mem, tail, cells, size, k, c1);
      ListedInFree(cells, size, mincell, k, -1, k, c1);
      mem := SetNext(mem, c1, mem[c2].next);
      WholeRepresents(mem0, mem, tail, cells, size, need, mincell, k, c1);
      TakeKeepsWellFormed(cells, size, need, mincell, k);
      TakeUsedBytes(cells, POFF, need, mincell, k);
      cells := Take(cells, POFF, need, mincell, k);
    }

    /** The user of a live block writes over it: the first word handed out is where a free cell
        has its link. */
    method UserStore(p: nat, x: nat)
      requires Valid() && Live(p)
      modifies this`mem
      ensures Valid()
    {
      ghost var k :| 0 <= k < |cells| && cells[k].used && p == cells[k].addr + POFF;
      ghost var mem0 := mem;
      AddrsDiffer(cells, POFF, HDR, size, k);
      FreeListIsOfCells(cells);
      mem := SetNext(mem, p - POFF, x);
      forall t | 0 <= t < |FreeList(cells)| ensures FreeList(cells)[t] != p - POFF {
        assert FreeList(cells)[t] in FreeList(cells);
      }
      SameLinks(mem0, mem, FreeList(cells));
    }

    lemma NotLiveOutside(p: int)
      requires Valid() && (p <= 0 || size < p)
      ensures !Live(p)
    {
      AllAscending(cells, POFF, HDR, size);
    }

    /** The loop of suba_free: the last free cell below ref, or the tail. */
    method InsertionPoint(ref: nat, ghost k: nat) returns (c1: nat)
      requires WellFormed(cells, size, mincell) && Represents(mem, tail, cells)
      requires k < |cells| && cells[k].used && cells[k].addr == ref
      ensures IsBefore(cells, k, c1)
    {
      c1 := tail;
      ghost var list, t := FreeList(cells), 0;
      InsertionFacts(cells, size, mincell, k);
      while mem[c1].next < ref
        invariant 0 <= t <= |FreeList(cells[..k])| && t < |list| && c1 == Before(list, t)
        decreases |list| - t
      {
        assert mem[c1].next == list[t];
        c1 := mem[c1].next;
        t := t + 1;
      }
      assert mem[c1].next == list[t];
    }

    /** The stores of suba_free. */
    method StoreSplice(c1: nat, c2: nat)
      requires c1 in mem && c2 in mem && c1 != c2 && mem[c1].next in mem && mem[c1].next != c2
      modifies this`mem, this`tail
      ensures var m := old(mem);
        var c3 := m[c1].next;
        var j1, j2 := c1 + POFF + m[c1].size == c2, c2 + POFF + m[c2].size == c3;
        && mem == SpliceStores(m, c1, c2, c3, j1, j2)
        && tail == if j2 && c3 == old(tail) then if j1 then c1 else c2 else old(tail)
    {
      var c3 := mem[c1].next;
      var j1 := c1 + POFF + mem[c1].size == c2;
      var j2 := c2 + POFF + mem[c2].size == c3;
      if j1 {
        if j2 {
          if c3 == tail { tail := c1; }
          mem := mem[c1 := mem[c1].(next := mem[c3].next)];
          mem := mem[c1 := mem[c1].(size := mem[c1].size + POFF + mem[c3].size)];
        }
        mem := mem[c1 := mem[c1].(size := mem[c1].size + POFF + mem[c2].size)];
      } else {
        if j2 {
          if c3 == tail { tail := c2; }
          mem := mem[c2 := mem[c2].(next := if mem[c3].next == c3 then c2 else mem[c3].next)];
          mem := mem[c2 := mem[c2].(size := mem[c2].size + POFF + mem[c3].size)];
        } else {
          mem := mem[c2 := mem[c2].(next := mem[c1].next)];
        }
        mem := mem[c1 := mem[c1].(next := c2)];
      }
    }

    /** The end of suba_free: the cell c2 = cells[k] is put on the free list after
        c1 and joined with the cells it touches. */
    method Splice(c1: nat, c2: nat, ghost k: nat)
      requires WellFormed(cells, size, mincell) && Represents(mem, tail, cells)
      requires k < |cells| && cells[k].used && cells[k].addr == c2 && IsBefore(cells, k, c1)
      modifies this`mem, this`tail, this`cells
      ensures cells == Release(old(cells), POFF, k)
      ensures WellFormed(cells, size, mincell) && Represents(mem, tail, cells)
      ensures UsedBytes(cells, POFF) + POFF + old(cells)[k].size == UsedBytes(old(cells), POFF)
      ensures StoresInFree(old(mem), mem, old(cells), k)
    {
      ghost var mem0, tail0, cells0 := mem, tail, cells;
      SpliceFacts(mem, tail, cells, size, mincell, k, c1);
      SpliceInFree(mem, cells, size, mincell, k, c1, c1 + POFF + mem[c1].size == c2, c2 + POFF + mem[c2].size ==
          mem[c1].next);
      StoreSplice(c1, c2);
      cells := Release(cells0, POFF, k);
      SpliceCorrect(mem0, mem, tail0, tail, cells0, cells, size, mincell, k, c1);
    }

    /** The scan of suba_alloc: the first free cell with at least `need` bytes, and
        the free cell before it on the circular list. */
    method Scan(need: nat) returns (found: bool, c1: nat, c2: nat, ghost k: nat)
      requires Valid()
      ensures k == FirstFit(cells, need, 0)
      ensures found <==> FirstFit(cells, need, 0) < |cells|
      ensures found ==> IsBefore(cells, FirstFit(cells, need, 0), c1) && c2 == cells[FirstFit(cells, need, 0)].addr
    {
      c1, c2, found := tail, tail, false;
      ghost var i := 0;
      TailIsLast(cells);
      while true
        invariant 0 <= i < |cells| && IsBefore(cells, i, c2)
        invariant FirstFit(cells, need, 0) == FirstFit(cells, need, i)
        decreases |cells| - i
      {
        c1 := c2;
        k := ScanStep(mem, tail, cells, size, mincell, need, i, c1);
        c2 := Checked(mem[c1].next);
        if mem[c2].size >= need {
          found := true;
          return;
        }
        if mem[c1].next == tail {
          k := |cells|;
          return;
        }
        i := k + 1;
      }
    }
  }

  /** Following the link of the entry before i leads to the next free cell. */
  lemma ScanStep(mem: Memory, tail: nat, cells: seq<Cell>, region: nat, mincell: nat, need: nat, i: nat, c: nat)
    returns (k: nat)
    requires WellFormed(cells, region, mincell) && Represents(mem, tail, cells)
    requires i < |cells| && IsBefore(cells, i, c)
    ensures i <= k < |cells| && !cells[k].used && IsBefore(cells, k, c)
    ensures c in mem && mem[c].next == cells[k].addr && 0 < cells[k].addr <= region
    ensures cells[k].addr in mem && mem[cells[k].addr].size == cells[k].size
    ensures cells[k].addr == tail <==> k == |cells| - 1
    ensures k + 1 < |cells| ==> IsBefore(cells, k + 1, cells[k].addr)
    ensures FirstFit(cells, need, i) == if cells[k].size >= need then k else FirstFit(cells, need, k + 1)
  {
    NextFreeEntry(cells, i);
    k := NextFree(cells, i);
    SkipsTo(cells, need, i, k);
    InRegion(cells, POFF, HDR, region, k);
    AddrsDiffer(cells, POFF, HDR, region, k);
    FreeListAt(cells, k);
    if k + 1 < |cells| { NextFreeEntry(cells, k + 1); }
  }

  lemma ScanFacts(mem: Memory, tail: nat, cells: seq<Cell>, region: nat, k: nat, c1: nat)
    requires Tiles(cells, POFF, HDR, region) && Represents(mem, tail, cells)
    requires k < |cells| && !cells[k].used && IsBefore(cells, k, c1)
    ensures c1 in mem && cells[k].addr in mem
    ensures mem[c1].next == cells[k].addr && mem[cells[k].addr].size == cells[k].size
    ensures cells[k].addr == tail <==> k == |cells| - 1
    ensures !(cells[k].addr < c1 < cells[k].End(POFF))
  {
    FreeListAt(cells, k);
    AllAscending(cells, POFF, HDR, region);
    assert mem[c1].next == FreeList(cells)[|FreeList(cells[..k])|];
    if cells[k].addr < c1 < cells[k].End(POFF) {
      BetweenCells(cells, region, k, c1);
      assert false;
    }
  }

  lemma {:induction false} SkipsTo(cells: seq<Cell>, need: nat, i: nat, k: nat)
    requires i <= k < |cells| && !cells[k].used
    requires forall j :: i <= j < k ==> cells[j].used
    ensures FirstFit(cells, need, i) == if cells[k].size >= need then k else FirstFit(cells, need, k + 1)
    decreases k - i
  {
    if i < k { SkipsTo(cells, need, i + 1, k); }
  }

  // ------------------------------------------------------------------------ runs

  /** The cell addresses of the live blocks, each once, in the order they are to be freed. */
  ghost predicate ListsLive(order: seq<nat>, cells: seq<Cell>) {
    && (forall i, j :: 0 <= i < j < |order| ==> order[i] != order[j])
    && (forall a :: a in order <==> a in LiveAddrs(cells))
  }

  lemma FirstIsLive(order: seq<nat>, cells: seq<Cell>, region: nat, mincell: nat) returns (i: nat)
    requires WellFormed(cells, region, mincell) && ListsLive(order, cells) && order != []
    ensures i < |cells| && cells[i].used && cells[i].addr == order[0] && Find(cells, order[0]) == i
    ensures ListsLive(order[1..], Release(cells, POFF, i))
    ensures ReleaseAll(cells, POFF, order) == ReleaseAll(Release(cells, POFF, i), POFF, order[1..])
  {
    assert order[0] in order;
    i :| 0 <= i < |cells| && cells[i].used && cells[i].addr == order[0];
    FindUnique(cells, POFF, HDR, region, i);
    ReleaseLiveAddrs(cells, POFF, HDR, region, i);
    assert order == [order[0]] + order[1..];
    assert forall a :: a in order[1..] <==> a in order && a != order[0];
  }

  /** One more of the live blocks is freed, on the way to the cells `goal`. */
  method FreeFirst(h: Heap, addr: nat, ghost order: seq<nat>, ghost goal: seq<Cell>)
    requires h.Valid() && ListsLive(order, h.cells) && order != [] && order[0] == addr
    requires ReleaseAll(h.cells, POFF, order) == goal
    modifies h
    ensures h.Valid() && ListsLive(order[1..], h.cells) && ReleaseAll(h.cells, POFF, order[1..]) == goal
  {
    ghost var k := FirstIsLive(order, h.cells, h.size, h.mincell);
    assert h.Live(addr + POFF);
    var ret := h.Free(addr + POFF);
  }

  lemma NothingUsed(h: Heap, cells: seq<Cell>)
    requires h.Valid() && h.cells == cells && |cells| == 1 && !cells[0].used
    ensures h.allocTotal == h.freeTotal
  {
    assert cells == [cells[0]];
    UsedBytesSmall(cells[0], cells[0], cells[0], POFF);
  }

  /** Whatever was allocated: freeing every live block, in any order, leaves the heap as it was
      initialised, and nothing in use. */
  method FreeAll(h: Heap, order: seq<nat>)
    requires h.Valid() && ListsLive(order, h.cells)
    modifies h
    ensures h.Valid() && h.cells == [Cell(HDR, h.size - (HDR + POFF), false)]
    ensures h.allocTotal == h.freeTotal
  {
    ReleaseAllIsSingle(h.cells, h.size, h.mincell, order);
    ghost var goal, rest := [Cell(HDR, h.size - (HDR + POFF), false)], order;
    var i := 0;
    while i < |order|
      invariant 0 <= i <= |order| && rest == order[i..]
      invariant h.Valid() && ListsLive(rest, h.cells) && ReleaseAll(h.cells, POFF, rest) == goal
    {
      FreeFirst(h, order[i], rest, goal);
      rest := rest[1..];
      i := i + 1;
    }
    NothingUsed(h, h.cells);
  }

  lemma ReleaseAllIsSingle(cells: seq<Cell>, region: nat, mincell: nat, order: seq<nat>)
    requires WellFormed(cells, region, mincell) && ListsLive(order, cells) && HDR + POFF < region
    ensures ReleaseAll(cells, POFF, order) == [Cell(HDR, region - (HDR + POFF), false)]
  {
    assert (set a | a in order) == LiveAddrs(cells);
    ReleaseAllRestores(cells, POFF, HDR, region, order);
  }
}
