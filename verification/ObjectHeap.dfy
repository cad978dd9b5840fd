/** The data buffers of the objects in the heap: allocation and release with the ledger of
    bytes in use. */
module ObjectHeap {
  import opened Blocks
  import opened SubaCells
  import opened Suba

  /** p was handed out for at least n bytes. */
  ghost predicate HasBlock(cells: seq<Cell>, p: int, n: int) {
    exists i :: 0 <= i < |cells| && IsBlock(cells[i], p, n)
  }

  predicate IsBlock(c: Cell, p: int, n: int) {
    c.used && c.addr + POFF == p && n <= c.size
  }

  /** All blocks but the one at p are still there. */
  ghost predicate KeepsBlocks(cells: seq<Cell>, cells': seq<Cell>, p: int) {
    forall q, n :: q != p && HasBlock(cells, q, n) ==> HasBlock(cells', q, n)
  }

  /** The heap has room for a request: its first fit is not the last cell, unless that is split. */
  predicate HasRoom(cells: seq<Cell>, size: int, mincell: nat) {
    size > 0 && Serves(cells, Need(size, mincell), mincell, FirstFit(cells, Need(size, mincell), 0))
  }

  /** The cells after the first fit has served a request. */
  function Taken(cells: seq<Cell>, size: int, mincell: nat): seq<Cell>
    requires size > 0 && FirstFit(cells, Need(size, mincell), 0) < |cells|
  {
    Take(cells, POFF, Need(size, mincell), mincell, FirstFit(cells, Need(size, mincell), 0))
  }

  /** Where the block is that was handed out. */
  function PlaceOf(cells: seq<Cell>, size: int, mincell: nat): nat
    requires size > 0 && FirstFit(cells, Need(size, mincell), 0) < |cells|
  {
    cells[FirstFit(cells, Need(size, mincell), 0)].addr + POFF
  }

  /** Giving it back leaves the cells as they were. */
  lemma TakenThenFreed(cells: seq<Cell>, region: nat, mincell: nat, size: int)
    requires WellFormed(cells, region, mincell) && HasRoom(cells, size, mincell)
    ensures var cells' := Taken(cells, size, mincell);
      var k := Find(cells', PlaceOf(cells, size, mincell) - POFF);
      k < |cells'| && Release(cells', POFF, k) == cells
  {
    AllocThenFree(cells, region, size, mincell);
  }

  lemma TakeBlocks(cells: seq<Cell>, region: nat, mincell: nat, n: nat, k: nat)
    requires WellFormed(cells, region, mincell) && k < |cells| && !cells[k].used
    requires Need(n, mincell) <= cells[k].size
    ensures var cells' := Take(cells, POFF, Need(n, mincell), mincell, k); var p := cells[k].addr + POFF;
      && HasBlock(cells', p, n) && !HasBlock(cells, p, 0)
      && KeepsBlocks(cells, cells', 0)
  {
    var need := Need(n, mincell);
    var cells' := Take(cells, POFF, need, mincell, k);
    AddrsDiffer(cells, POFF, HDR, region, k);
    assert IsBlock(cells'[k], cells[k].addr + POFF, n);
    forall q, m | HasBlock(cells, q, m) ensures HasBlock(cells', q, m) {
      var i :| 0 <= i < |cells| && IsBlock(cells[i], q, m);
      assert IsBlock(cells'[if i > k then i + (|cells'| - |cells|) else i], q, m);
    }
  }

  lemma ReleaseBlocks(cells: seq<Cell>, region: nat, mincell: nat, k: nat)
    requires WellFormed(cells, region, mincell) && k < |cells| && cells[k].used
    ensures KeepsBlocks(cells, Release(cells, POFF, k), cells[k].addr + POFF)
  {
    var cells' := Release(cells, POFF, k);
    forall q, n | q != cells[k].addr + POFF && HasBlock(cells, q, n) ensures HasBlock(cells', q, n) {
      var i :| 0 <= i < |cells| && IsBlock(cells[i], q, n);
      var j := CellStays(cells, k, i);
      assert IsBlock(cells'[j], q, n);
    }
  }

  lemma CellStays(cells: seq<Cell>, k: nat, i: nat) returns (j: nat)
    requires k < |cells| && i < |cells| && i != k && cells[i].used
    ensures var cells' := Release(cells, POFF, k); j < |cells'| && cells'[j] == cells[i]
  {
    ReleaseElements(cells, POFF, k);
    var m, e := MergeStart(cells, k), MergeEnd(cells, k);
    j := if i < m then i else i - (e - m) + 1;
  }

  /** The same for the cell that a release finds. */
  lemma ReleaseFound(cells: seq<Cell>, region: nat, mincell: nat, p: int)
    requires WellFormed(cells, region, mincell) && HasBlock(cells, p, 0)
    ensures exists i :: 0 <= i < |cells| && cells[i].used && p == cells[i].addr + POFF
    ensures var k := Find(cells, p - POFF);
      k < |cells| && cells[k].used && KeepsBlocks(cells, Release(cells, POFF, k), p)
  {
    var k :| 0 <= k < |cells| && IsBlock(cells[k], p, 0);
    FindUnique(cells, POFF, HDR, region, k);
    ReleaseBlocks(cells, region, mincell, k);
  }

  /** The data of two blocks do not overlap. */
  lemma BlocksDisjoint(cells: seq<Cell>, region: nat, mincell: nat, p: int, n: nat, q: int, m: nat)
    requires WellFormed(cells, region, mincell) && HasBlock(cells, p, n) && HasBlock(cells, q, m) && p != q
    ensures p + n <= q || q + m <= p
    ensures HDR < p && p + n <= region
  {
    var i :| 0 <= i < |cells| && IsBlock(cells[i], p, n);
    var j :| 0 <= j < |cells| && IsBlock(cells[j], q, m);
    InRegion(cells, POFF, HDR, region, i);
    if i < j { CellsAscend(cells, POFF, HDR, region, i, j); } else { CellsAscend(cells, POFF, HDR, region, j, i); }
  }

  lemma BlockInRegion(cells: seq<Cell>, region: nat, mincell: nat, p: int, n: nat)
    requires WellFormed(cells, region, mincell) && HasBlock(cells, p, n)
    ensures HDR < p && p + n <= region
  {
    var i :| 0 <= i < |cells| && IsBlock(cells[i], p, n);
    InRegion(cells, POFF, HDR, region, i);
  }

  class ObjectHeap {
    const heap: Heap
    /** The bytes of the region. */
    const data: array<int>
    var used: int
    var free: int

    ghost predicate Valid()
      reads this, heap
    {
      heap.Valid() && data.Length == heap.size
    }

    ghost predicate Has(p: int, n: int)
      reads this, heap
    {
      HasBlock(heap.cells, p, n)
    }

    ghost predicate CanServe(size: int)
      reads this, heap
    {
      HasRoom(heap.cells, size, heap.mincell)
    }

    constructor (heap: Heap, data: array<int>)
      requires heap.Valid() && data.Length == heap.size
      ensures Valid() && this.heap == heap && this.data == data && used == 0 && free == heap.size
    {
      this.heap, this.data := heap, data;
      used, free := 0, heap.size;
    }

    /** The place of `size` zeroed bytes in the heap; -1 if and only if it cannot serve them. */
    method MemAlloc(size: int) returns (idx: int)
      requires Valid()
      modifies this, heap, data
      ensures Valid()
      ensures if old(CanServe(size)) then idx > 0 else idx == -1
      ensures idx == -1 ==> heap.cells == old(heap.cells) && used == old(used) && free == old(free)
      ensures idx > 0 ==> used == old(used) + size && free == old(free) - size
      ensures idx > 0 ==> Has(idx, size) && !old(Has(idx, 0)) && idx + size <= data.Length
      ensures old(CanServe(size)) ==>
        && heap.cells == Taken(old(heap.cells), size, heap.mincell)
        && idx == PlaceOf(old(heap.cells), size, heap.mincell)
      ensures KeepsBlocks(old(heap.cells), heap.cells, 0)
      ensures forall i :: 0 <= i < data.Length ==>
        data[i] == if 0 < idx <= i < idx + size then 0 else old(data[i])
    {
      idx := Reserve(size);
      if idx > 0 {
        Clear(idx, size);
      }
    }

    /** The memory is not cleared yet. */
    method Reserve(size: int) returns (idx: int)
      requires Valid()
      modifies this, heap
      ensures Valid()
      ensures if old(CanServe(size)) then idx > 0 else idx == -1
      ensures idx == -1 ==> heap.cells == old(heap.cells) && used == old(used) && free == old(free)
      ensures idx > 0 ==> used == old(used) + size && free == old(free) - size
      ensures idx > 0 ==> size > 0 && Has(idx, size) && !old(Has(idx, 0)) && idx + size <= data.Length
      ensures old(CanServe(size)) ==>
        && heap.cells == Taken(old(heap.cells), size, heap.mincell)
        && idx == PlaceOf(old(heap.cells), size, heap.mincell)
      ensures KeepsBlocks(old(heap.cells), heap.cells, 0)
    {
      if size <= 0 { return -1; }
      ghost var cells0 := heap.cells;
      ghost var k := FirstFit(cells0, Need(size, heap.mincell), 0);
      var p := heap.Alloc(size);
      if p == 0 { return -1; }
      TakeBlocks(cells0, heap.size, heap.mincell, size, k);
      BlockInRegion(heap.cells, heap.size, heap.mincell, p, size);
      free := free - size;
      used := used + size;
      idx := p;
    }

    /** memset. */
    method Clear(idx: nat, size: nat)
      requires idx + size <= data.Length
      modifies data
      ensures forall i :: 0 <= i < data.Length ==>
        data[i] == if idx <= i < idx + size then 0 else old(data[i])
    {
      for k := 0 to size
        invariant forall i :: 0 <= i < data.Length ==>
          data[i] == if idx <= i < idx + k then 0 else old(data[i])
      {
        data[idx + k] := 0;
      }
    }

    /** A place before the heap is not accepted by the allocator, but counted all the same. */
    method MemFree(idx: int, size: int)
      requires Valid() && (idx < 0 || Has(idx, 0))
      modifies this, heap
      ensures Valid()
      ensures used == old(used) - size && free == old(free) + size
      ensures KeepsBlocks(old(heap.cells), heap.cells, idx)
      ensures idx < 0 ==> heap.cells == old(heap.cells)
      ensures idx >= 0 ==>
        var k := Find(old(heap.cells), idx - POFF);
        k < |old(heap.cells)| && heap.cells == Release(old(heap.cells), POFF, k)
    {
      if idx >= 0 {
        ReleaseOne(idx);
      } else {
        heap.NotLiveOutside(idx);
        var ignored := heap.Free(idx);
      }
      free := free + size;
      used := used - size;
    }

    method ReleaseOne(idx: nat)
      requires Valid() && Has(idx, 0)
      modifies heap
      ensures Valid() && KeepsBlocks(old(heap.cells), heap.cells, idx)
      ensures idx >= POFF
      ensures var k := Find(old(heap.cells), idx - POFF);
        k < |old(heap.cells)| && heap.cells == Release(old(heap.cells), POFF, k)
    {
      ReleaseFound(heap.cells, heap.size, heap.mincell, idx);
      assert heap.Live(idx);
      var ignored := heap.Free(idx);
    }
  }
}
