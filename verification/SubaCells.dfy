/**
 The cells of the suba allocator: alignment, the minimal cell size, and the last
 cell, which is never handed out.  Offsets are those of the 64-bit build.
 */
module SubaCells {
  import opened Blocks

  /** Offset from a cell to the memory handed out. */
  const POFF: nat := 16
  /** Size of the allocator's own header. */
  const HDR: nat := 120
  const ALIGNMENT: nat := 8

  function AlignUp(n: nat): (r: nat)
    ensures n <= r < n + ALIGNMENT && r % ALIGNMENT == 0
  {
    (n + 7) / 8 * 8
  }

  /** The size of the cell that serves a request of n bytes: the least aligned one, and not below
      the minimal size. */
  function Need(n: nat, mincell: nat): (r: nat)
    ensures n <= r && mincell <= r && r < (if n < mincell then mincell else n) + 8
    ensures mincell % ALIGNMENT == 0 ==> r % ALIGNMENT == 0
    ensures n < mincell ==> r == mincell
  {
    if n < mincell then mincell else AlignUp(n)
  }

  /** Size of the link of a free cell, which is where its data would be. */
  const LINK: nat := 8

  /** What every cell has at least: the minimal size, or all of a region that is smaller. */
  function Least(region: nat, mincell: nat): (n: nat)
    ensures n <= mincell
  {
    if HDR + POFF + mincell <= region then mincell
    else if HDR + POFF <= region then region - (HDR + POFF)
    else 0
  }

  ghost predicate WellFormed(cells: seq<Cell>, region: nat, mincell: nat) {
    && Tiles(cells, POFF, HDR, region)
    && Coalesced(cells)
    && !cells[|cells| - 1].used
    && (forall i :: 0 <= i < |cells| ==> CellOk(cells[i], Least(region, mincell), mincell))
    && mincell % ALIGNMENT == 0 && mincell > 0
  }

  /** First free cell from i on that has at least `need` bytes, or |cells|. */
  function FirstFit(cells: seq<Cell>, need: nat, i: nat): (k: nat)
    requires i <= |cells|
    ensures i <= k <= |cells|
    ensures k < |cells| ==> !cells[k].used && need <= cells[k].size
    ensures forall j :: i <= j < k ==> cells[j].used || cells[j].size < need
    decreases |cells| - i
  {
    if i == |cells| || (!cells[i].used && need <= cells[i].size) then i
    else FirstFit(cells, need, i + 1)
  }

  /** The cells after serving `need` bytes from free cell k; None when that cell is
      not big enough to be split and is the last one, which is never given away. */
  predicate Serves(cells: seq<Cell>, need: nat, mincell: nat, k: nat) {
    k < |cells| && (cells[k].size > POFF + need + mincell || k != |cells| - 1)
  }

  /** A request is refused only if all free cells are too small for it, with less than eight bytes
      to spare; the last cell, which is never given away, also if nothing minimal would be left. */
  lemma Refusal(cells: seq<Cell>, n: nat, mincell: nat, j: nat)
    requires !Serves(cells, Need(n, mincell), mincell, FirstFit(cells, Need(n, mincell), 0))
    requires j < |cells| && !cells[j].used
    ensures var least := if n < mincell then mincell else n;
      if j < |cells| - 1 then cells[j].size < least + 8 else cells[j].size < least + 8 + POFF + mincell
  {}

  predicate CellOk(c: Cell, least: nat, mincell: nat) {
    c.addr % ALIGNMENT == 0 && least <= c.size && (c.used ==> mincell <= c.size)
  }

  lemma AlignedSum(a: nat, need: nat)
    requires a % ALIGNMENT == 0 && need % ALIGNMENT == 0
    ensures (a + POFF + need) % ALIGNMENT == 0
  {}

  /** Serving from cell k leaves the other cells, and makes one or two of it. */
  lemma TakenCellOk(cells: seq<Cell>, need: nat, least: nat, mincell: nat, k: nat, i: nat)
    requires k < |cells| && need % ALIGNMENT == 0 && least <= mincell <= need <= cells[k].size
    requires forall j :: 0 <= j < |cells| ==> CellOk(cells[j], least, mincell)
    requires i < |Take(cells, POFF, need, mincell, k)|
    ensures CellOk(Take(cells, POFF, need, mincell, k)[i], least, mincell)
  {
    assert CellOk(cells[k], least, mincell);
    AlignedSum(cells[k].addr, need);
    if i < k { assert CellOk(cells[i], least, mincell); }
    if i > k + 1 && cells[k].size > POFF + need + mincell { assert CellOk(cells[i - 1], least, mincell); }
  }

  lemma TakeKeepsWellFormed(cells: seq<Cell>, region: nat, need: nat, mincell: nat, k: nat)
    requires WellFormed(cells, region, mincell) && need % ALIGNMENT == 0 && mincell <= need
    requires k < |cells| && !cells[k].used && need <= cells[k].size && Serves(cells, need, mincell, k)
    ensures WellFormed(Take(cells, POFF, need, mincell, k), region, mincell)
  {
    TakeKeepsTiling(cells, POFF, HDR, region, need, mincell, k);
    var cells' := Take(cells, POFF, need, mincell, k);
    forall i | 0 <= i < |cells'| ensures CellOk(cells'[i], Least(region, mincell), mincell) {
      TakenCellOk(cells, need, Least(region, mincell), mincell, k, i);
    }
  }

  lemma CellInRegion(cells: seq<Cell>, region: nat, mincell: nat, k: nat)
    requires WellFormed(cells, region, mincell) && k < |cells|
    ensures HDR + POFF + cells[k].size <= region && CellOk(cells[k], Least(region, mincell), mincell)
  {
    InRegion(cells, POFF, HDR, region, k);
  }

  /** The link of every free cell lies in its cell exactly if the region has room for the link of
      the first one. */
  lemma LinksFit(cells: seq<Cell>, region: nat, mincell: nat)
    requires WellFormed(cells, region, mincell)
    ensures (forall i :: 0 <= i < |cells| ==> cells[i].addr + POFF + LINK <= cells[i].End(POFF)) <==>
      HDR + POFF + LINK <= region
  {
    forall i | 0 <= i < |cells|
      ensures cells[i].addr + POFF + LINK <= cells[i].End(POFF) <==> HDR + POFF + LINK <= region
    {
      CellInRegion(cells, region, mincell, i);
    }
    assert cells[0].addr + POFF + LINK <= cells[0].End(POFF) <==> HDR + POFF + LINK <= region;
  }

  lemma ReleaseKeepsWellFormed(cells: seq<Cell>, region: nat, mincell: nat, k: nat)
    requires WellFormed(cells, region, mincell) && k < |cells| && cells[k].used
    ensures WellFormed(Release(cells, POFF, k), region, mincell)
  {
    ReleaseKeepsTiling(cells, POFF, HDR, region, k);
    ReleaseElements(cells, POFF, k);
  }

  /** Freeing the block that was just allocated restores the identical cells. */
  lemma AllocThenFree(cells: seq<Cell>, region: nat, n: nat, mincell: nat)
    requires WellFormed(cells, region, mincell)
    requires Serves(cells, Need(n, mincell), mincell, FirstFit(cells, Need(n, mincell), 0))
    ensures var k := FirstFit(cells, Need(n, mincell), 0);
      var cells' := Take(cells, POFF, Need(n, mincell), mincell, k);
      && Find(cells', cells[k].addr) == k && cells'[k].used && n <= cells'[k].size
      && Release(cells', POFF, k) == cells
  {
    var k, need := FirstFit(cells, Need(n, mincell), 0), Need(n, mincell);
    TakeThenRelease(cells, POFF, need, mincell, k);
    TakeKeepsTiling(cells, POFF, HDR, region, need, mincell, k);
    var cells' := Take(cells, POFF, need, mincell, k);
    assert cells'[k].addr == cells[k].addr;
    FindUnique(cells', POFF, HDR, region, k);
  }
}
