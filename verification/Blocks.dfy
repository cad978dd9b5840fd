/**
 A region of memory as the address-ordered sequence of its cells, each with a
 header of h bytes, and what allocating and releasing do to it.  Both heap
 allocators are proved against this view; neither keeps it.
 */
module Blocks {
  datatype Cell = Cell(addr: nat, size: nat, used: bool) {
    function End(h: nat): nat { addr + h + size }
  }

  /** The cells follow each other without a gap from lo to region. */
  ghost predicate Tiles(cells: seq<Cell>, h: nat, lo: nat, region: nat) {
    && h > 0
    && |cells| > 0
    && cells[0].addr == lo
    && cells[|cells| - 1].End(h) == region
    && forall i :: 0 <= i < |cells| - 1 ==> cells[i].End(h) == cells[i + 1].addr
  }

  /** No two adjacent cells are free. */
  ghost predicate Coalesced(cells: seq<Cell>) {
    forall i :: 0 <= i < |cells| - 1 ==> cells[i].used || cells[i + 1].used
  }

  lemma {:induction false} CellsAscend(cells: seq<Cell>, h: nat, lo: nat, region: nat, i: nat, j: nat)
    requires Tiles(cells, h, lo, region) && i < j < |cells|
    ensures cells[i].End(h) <= cells[j].addr
    decreases j
  {
    if i < j - 1 { CellsAscend(cells, h, lo, region, i, j - 1); }
  }

  lemma AllAscending(cells: seq<Cell>, h: nat, lo: nat, region: nat)
    requires Tiles(cells, h, lo, region)
    ensures forall i, j :: 0 <= i < j < |cells| ==> cells[i].End(h) <= cells[j].addr
    ensures forall i :: 0 <= i < |cells| ==> lo <= cells[i].addr && cells[i].End(h) <= region
  {
    forall i, j | 0 <= i < j < |cells| ensures cells[i].End(h) <= cells[j].addr {
      CellsAscend(cells, h, lo, region, i, j);
    }
  }

  lemma AddrsDiffer(cells: seq<Cell>, h: nat, lo: nat, region: nat, k: nat)
    requires Tiles(cells, h, lo, region) && k < |cells|
    ensures forall i :: 0 <= i < |cells| && i != k ==> cells[i].addr != cells[k].addr
  {
    forall i | 0 <= i < |cells| && i != k ensures cells[i].addr != cells[k].addr {
      if i < k { CellsAscend(cells, h, lo, region, i, k); } else { CellsAscend(cells, h, lo, region, k, i); }
    }
  }

  lemma InRegion(cells: seq<Cell>, h: nat, lo: nat, region: nat, k: nat)
    requires Tiles(cells, h, lo, region) && k < |cells|
    ensures lo <= cells[k].addr && cells[k].End(h) <= region
  {
    if k > 0 { CellsAscend(cells, h, lo, region, 0, k); }
    if k < |cells| - 1 { CellsAscend(cells, h, lo, region, k, |cells| - 1); }
  }

  // ------------------------------------------------------------------ allocation

  /** The cells after serving `need` bytes from free cell k: it is split when more
      than `slack` bytes would remain, and used as a whole otherwise. */
  function Take(cells: seq<Cell>, h: nat, need: nat, slack: nat, k: nat): seq<Cell>
    requires k < |cells|
  {
    var c := cells[k];
    if c.size > h + need + slack then
      cells[..k] + [Cell(c.addr, need, true), Cell(c.addr + h + need, c.size - (need + h), false)] + cells[k + 1..]
    else
      cells[k := c.(used := true)]
  }

  lemma TakeKeepsTiling(cells: seq<Cell>, h: nat, lo: nat, region: nat, need: nat, slack: nat, k: nat)
    requires Tiles(cells, h, lo, region) && Coalesced(cells) && k < |cells| && !cells[k].used
    ensures Tiles(Take(cells, h, need, slack, k), h, lo, region) && Coalesced(Take(cells, h, need, slack, k))
  {
    var cells' := Take(cells, h, need, slack, k);
    if cells[k].size > h + need + slack {
      forall i | 0 <= i < |cells'| - 1
        ensures cells'[i].End(h) == cells'[i + 1].addr && (cells'[i].used || cells'[i + 1].used)
      {
        if i > k + 1 { assert cells'[i] == cells[i - 1] && cells'[i + 1] == cells[i]; }
        if i == k + 1 { assert cells'[i + 1] == cells[k + 1]; }
      }
    }
  }

  // --------------------------------------------------------------------- release

  predicate JoinsLeft(cells: seq<Cell>, k: nat)
    requires k < |cells|
  {
    k > 0 && !cells[k - 1].used
  }

  predicate JoinsRight(cells: seq<Cell>, k: nat)
    requires k < |cells|
  {
    k + 1 < |cells| && !cells[k + 1].used
  }

  /** First cell that is merged when cell k is released. */
  function MergeStart(cells: seq<Cell>, k: nat): (m: nat)
    requires k < |cells|
    ensures m <= k
  {
    if JoinsLeft(cells, k) then k - 1 else k
  }

  /** The cell after the last one that is merged. */
  function MergeEnd(cells: seq<Cell>, k: nat): (e: nat)
    requires k < |cells|
    ensures k < e <= |cells|
  {
    if JoinsRight(cells, k) then k + 2 else k + 1
  }

  function MergedSize(cells: seq<Cell>, h: nat, k: nat): nat
    requires k < |cells|
  {
    cells[k].size
    + (if JoinsLeft(cells, k) then cells[k - 1].size + h else 0)
    + (if JoinsRight(cells, k) then cells[k + 1].size + h else 0)
  }

  /** The cells after releasing cell k and merging it with its free neighbours. */
  function Release(cells: seq<Cell>, h: nat, k: nat): seq<Cell>
    requires k < |cells|
  {
    var m := MergeStart(cells, k);
    cells[..m] + [Cell(cells[m].addr, MergedSize(cells, h, k), false)] + cells[MergeEnd(cells, k)..]
  }

  lemma ReleaseElements(cells: seq<Cell>, h: nat, k: nat)
    requires k < |cells|
    ensures var cells', m, e := Release(cells, h, k), MergeStart(cells, k), MergeEnd(cells, k);
      && |cells'| == |cells| - (e - m) + 1
      && cells'[m] == Cell(cells[m].addr, MergedSize(cells, h, k), false)
      && (forall i :: 0 <= i < m ==> cells'[i] == cells[i])
      && (forall i :: m < i < |cells'| ==> cells'[i] == cells[i + (e - m) - 1])
  {}

  lemma ReleaseKeepsTiling(cells: seq<Cell>, h: nat, lo: nat, region: nat, k: nat)
    requires Tiles(cells, h, lo, region) && Coalesced(cells) && k < |cells| && cells[k].used
    ensures Tiles(Release(cells, h, k), h, lo, region) && Coalesced(Release(cells, h, k))
  {
    ReleaseElements(cells, h, k);
    var cells', m, e := Release(cells, h, k), MergeStart(cells, k), MergeEnd(cells, k);
    var d := (e - m) - 1;
    forall i | 0 <= i < |cells'| - 1
      ensures cells'[i].End(h) == cells'[i + 1].addr && (cells'[i].used || cells'[i + 1].used)
    {
      if i > m { assert cells'[i] == cells[i + d] && cells'[i + 1] == cells[i + d + 1]; }
    }
  }

  // ------------------------------------------------------- round trips and sums

  /** Releasing the block just taken gives back the identical cells. */
  lemma TakeThenRelease(cells: seq<Cell>, h: nat, need: nat, slack: nat, k: nat)
    requires Coalesced(cells) && k < |cells| && !cells[k].used
    ensures Release(Take(cells, h, need, slack, k), h, k) == cells
  {
    var cells' := Take(cells, h, need, slack, k);
    ReleaseElements(cells', h, k);
    assert !JoinsLeft(cells', k);
    if cells[k].size > h + need + slack {
      assert JoinsRight(cells', k);
      assert cells'[k + 2..] == cells[k + 1..];
    } else {
      assert !JoinsRight(cells', k);
    }
  }

  ghost function LiveAddrs(cells: seq<Cell>): set<nat> {
    set i | 0 <= i < |cells| && cells[i].used :: cells[i].addr
  }

  /** Bytes of all used cells, headers included. */
  function UsedBytes(cells: seq<Cell>, h: nat): nat {
    if cells == [] then 0
    else (if cells[0].used then h + cells[0].size else 0) + UsedBytes(cells[1..], h)
  }

  lemma {:induction false} UsedBytesConcat(a: seq<Cell>, b: seq<Cell>, h: nat)
    ensures UsedBytes(a + b, h) == UsedBytes(a, h) + UsedBytes(b, h)
  {
    if a == [] {
      assert a + b == b;
    } else {
      assert (a + b)[1..] == a[1..] + b;
      UsedBytesConcat(a[1..], b, h);
    }
  }

  lemma UsedBytesAround(cells: seq<Cell>, h: nat, i: nat, j: nat)
    requires i <= j <= |cells|
    ensures UsedBytes(cells, h) == UsedBytes(cells[..i], h) + UsedBytes(cells[i..j], h) + UsedBytes(cells[j..], h)
  {
    assert cells == cells[..i] + (cells[i..j] + cells[j..]);
    UsedBytesConcat(cells[..i], cells[i..j] + cells[j..], h);
    UsedBytesConcat(cells[i..j], cells[j..], h);
  }

  function Bytes(c: Cell, h: nat): nat { if c.used then h + c.size else 0 }

  lemma UsedBytesSmall(a: Cell, b: Cell, c: Cell, h: nat)
    ensures UsedBytes([a], h) == Bytes(a, h)
    ensures UsedBytes([a, b], h) == Bytes(a, h) + Bytes(b, h)
    ensures UsedBytes([a, b, c], h) == Bytes(a, h) + Bytes(b, h) + Bytes(c, h)
  {
    UsedBytesConcat([a], [b], h);
    UsedBytesConcat([a, b], [c], h);
    assert [a] + [b] == [a, b] && [a, b] + [c] == [a, b, c];
  }

  /** Replacing the cells from i to j by others changes the sum by their difference. */
  lemma UsedBytesReplace(cells: seq<Cell>, h: nat, i: nat, j: nat, mid: seq<Cell>)
    requires i <= j <= |cells|
    ensures UsedBytes(cells[..i] + mid + cells[j..], h) + UsedBytes(cells[i..j], h) ==
      UsedBytes(cells, h) + UsedBytes(mid, h)
  {
    UsedBytesAround(cells, h, i, j);
    UsedBytesConcat(cells[..i] + mid, cells[j..], h);
    UsedBytesConcat(cells[..i], mid, h);
  }

  lemma TakeUsedBytes(cells: seq<Cell>, h: nat, need: nat, slack: nat, k: nat)
    requires k < |cells| && !cells[k].used
    ensures var cells' := Take(cells, h, need, slack, k);
      UsedBytes(cells', h) == UsedBytes(cells, h) + h + cells'[k].size
  {
    var cells' := Take(cells, h, need, slack, k);
    assert cells[k..k + 1] == [cells[k]];
    if cells[k].size > h + need + slack {
      UsedBytesReplace(cells, h, k, k + 1, [cells'[k], cells'[k + 1]]);
      UsedBytesSmall(cells'[k], cells'[k + 1], cells[k], h);
      UsedBytesSmall(cells[k], cells[k], cells[k], h);
    } else {
      UsedBytesReplace(cells, h, k, k + 1, [cells'[k]]);
      assert cells' == cells[..k] + [cells'[k]] + cells[k + 1..];
    }
  }

  lemma ReleaseUsedBytes(cells: seq<Cell>, h: nat, k: nat)
    requires k < |cells| && cells[k].used
    ensures UsedBytes(Release(cells, h, k), h) + h + cells[k].size == UsedBytes(cells, h)
  {
    var m := MergeStart(cells, k);
    var e := MergeEnd(cells, k);
    var c := Cell(cells[m].addr, MergedSize(cells, h, k), false);
    UsedBytesReplace(cells, h, m, e, [c]);
    UsedBytesSmall(c, c, c, h);
    MergedBytes(cells, h, k, m, e);
  }

  lemma MergedBytes(cells: seq<Cell>, h: nat, k: nat, m: nat, e: nat)
    requires m <= k < e <= |cells| && k <= m + 1 && e <= k + 2
    requires forall i :: m <= i < e && i != k ==> !cells[i].used
    requires cells[k].used
    ensures UsedBytes(cells[m..e], h) == h + cells[k].size
  {
    if e == m + 1 {
      assert cells[m..e] == [cells[m]];
    } else if e == m + 2 {
      assert cells[m..e] == [cells[m], cells[m + 1]];
      UsedBytesSmall(cells[m], cells[m + 1], cells[m], h);
    } else {
      assert cells[m..e] == [cells[m], cells[m + 1], cells[m + 2]];
      UsedBytesSmall(cells[m], cells[m + 1], cells[m + 2], h);
    }
  }

  /** Removing used cell k, together with free neighbours, from the live cells. */
  lemma LiveAddrsWithout(cells: seq<Cell>, cells': seq<Cell>, m: nat, d: int, k: nat)
    requires m < |cells'| && k < |cells| && |cells| == |cells'| + d && m <= k <= m + d
    requires forall i :: 0 <= i < m ==> cells'[i] == cells[i]
    requires forall i :: m < i < |cells'| ==> cells'[i] == cells[i + d]
    requires forall i :: m <= i <= m + d && i != k ==> !cells[i].used
    requires forall i :: 0 <= i < |cells| && i != k ==> cells[i].addr != cells[k].addr
    requires cells[k].used && !cells'[m].used
    ensures LiveAddrs(cells') == LiveAddrs(cells) - {cells[k].addr}
  {
    forall i | 0 <= i < |cells| && cells[i].used && i != k
      ensures cells[i].addr in LiveAddrs(cells')
    {
      if i < m { assert cells'[i] == cells[i]; } else { assert cells'[i - d] == cells[i]; }
    }
    forall i | 0 <= i < |cells'| && cells'[i].used
      ensures cells'[i].addr in LiveAddrs(cells) && cells'[i].addr != cells[k].addr
    {
      if i < m { assert cells[i] == cells'[i]; } else { assert cells[i + d] == cells'[i]; }
    }
  }

  lemma ReleaseLiveAddrs(cells: seq<Cell>, h: nat, lo: nat, region: nat, k: nat)
    requires Tiles(cells, h, lo, region) && k < |cells| && cells[k].used
    ensures LiveAddrs(Release(cells, h, k)) == LiveAddrs(cells) - {cells[k].addr}
  {
    AddrsDiffer(cells, h, lo, region, k);
    ReleaseElements(cells, h, k);
    LiveAddrsWithout(cells, Release(cells, h, k), MergeStart(cells, k), |cells| - |Release(cells, h, k)|, k);
  }

  /** Position of the cell at address a, or |cells|. */
  function Find(cells: seq<Cell>, a: nat): (k: nat)
    ensures k <= |cells|
    ensures k < |cells| ==> cells[k].addr == a
    ensures k == |cells| ==> forall i :: 0 <= i < |cells| ==> cells[i].addr != a
  {
    if cells == [] then 0 else if cells[0].addr == a then 0 else 1 + Find(cells[1..], a)
  }

  lemma FindUnique(cells: seq<Cell>, h: nat, lo: nat, region: nat, i: nat)
    requires Tiles(cells, h, lo, region) && i < |cells|
    ensures Find(cells, cells[i].addr) == i
  {
    AddrsDiffer(cells, h, lo, region, i);
  }

  /** The cells after releasing the blocks at the given cell addresses in turn. */
  function ReleaseAll(cells: seq<Cell>, h: nat, order: seq<nat>): seq<Cell>
    decreases |order|
  {
    if order == [] then cells
    else
      var k := Find(cells, order[0]);
      if k < |cells| then ReleaseAll(Release(cells, h, k), h, order[1..]) else cells
  }

  lemma LiveAddrsMember(cells: seq<Cell>)
    ensures forall i :: 0 <= i < |cells| && cells[i].used ==> cells[i].addr in LiveAddrs(cells)
  {}

  lemma TwoCellsOneLive(cells: seq<Cell>)
    requires Coalesced(cells)
    ensures |cells| > 1 ==> LiveAddrs(cells) != {}
  {
    LiveAddrsMember(cells);
    if |cells| > 1 { assert cells[0].used || cells[1].used; }
  }

  /** Releasing every live block, in whatever order, restores the single cell the
      allocator starts with. */
  lemma {:induction false} ReleaseAllRestores(cells: seq<Cell>, h: nat, lo: nat, region: nat, order: seq<nat>)
    requires Tiles(cells, h, lo, region) && Coalesced(cells)
    requires forall i, j :: 0 <= i < j < |order| ==> order[i] != order[j]
    requires (set a | a in order) == LiveAddrs(cells)
    ensures lo + h <= region
    ensures ReleaseAll(cells, h, order) == [Cell(lo, region - lo - h, false)]
    decreases |order|
  {
    if order == [] {
      LiveAddrsMember(cells);
      TwoCellsOneLive(cells);
    } else {
      assert order[0] in LiveAddrs(cells);
      var i :| 0 <= i < |cells| && cells[i].used && cells[i].addr == order[0];
      FindUnique(cells, h, lo, region, i);
      ReleaseKeepsTiling(cells, h, lo, region, i);
      ReleaseLiveAddrs(cells, h, lo, region, i);
      var rest := order[1..];
      assert order == [order[0]] + rest;
      assert (set a | a in rest) == (set a | a in order) - {order[0]};
      ReleaseAllRestores(Release(cells, h, i), h, lo, region, rest);
    }
  }

  /** Live blocks neither overlap each other nor leave the region. */
  lemma LiveBlocksDisjoint(cells: seq<Cell>, h: nat, lo: nat, region: nat, i: nat, j: nat)
    requires Tiles(cells, h, lo, region) && i < j < |cells|
    ensures lo + h <= cells[i].addr + h
    ensures cells[i].addr + h + cells[i].size < cells[j].addr + h
    ensures cells[j].addr + h + cells[j].size <= region
  {
    AllAscending(cells, h, lo, region);
  }
}
